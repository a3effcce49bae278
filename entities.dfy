/** BIO/BIOES chunk extraction: a tag sequence such as
    ["B-PER", "I-PER", "O", "B-LOC"] becomes typed, inclusive spans. */
module Entities {
  import opened Common

  /** One extracted span: its type and inclusive start/end token positions. */
  datatype Chunk = Chunk(kind: string, start: nat, end: nat)

  /** Position of the first '-' in `s`, or |s| when there is none. */
  function DashIndex(s: string): (k: nat)
    ensures k <= |s|
    ensures k < |s| ==> s[k] == '-'
    ensures forall t :: 0 <= t < k ==> s[t] != '-'
  {
    if s == [] then 0
    else if s[0] == '-' then 0
    else 1 + DashIndex(s[1..])
  }

  /** Splits a tag at its first '-' into (tag, type); a tag without '-'
      gets the type "_". */
  function SplitTag(s: string): (string, string)
  {
    var k := DashIndex(s);
    if k == |s| then (s, "_") else (s[..k], s[k + 1..])
  }

  /** A tag with a '-' is the dash-free tag, the dash and the type; a tag
      without one is the whole tag with type "_". */
  lemma SplitTagParts(s: string)
    ensures var r := SplitTag(s);
      && ('-' in s ==> s == r.0 + "-" + r.1 && '-' !in r.0)
      && ('-' !in s ==> r == (s, "_"))
  {
    var k := DashIndex(s);
    if k < |s| {
      assert s == s[..k] + "-" + s[k + 1..];
    }
  }

  /** The inverse direction of SplitTag: how a typed tag is written. */
  function JoinTag(tag: string, ty: string): string
  {
    tag + "-" + ty
  }

  lemma SplitJoin(tag: string, ty: string)
    requires '-' !in tag
    ensures SplitTag(JoinTag(tag, ty)) == (tag, ty)
  {
    var s := JoinTag(tag, ty);
    assert s[|tag|] == '-';
    assert forall t :: 0 <= t < |tag| ==> s[t] == tag[t];
    assert s[..|tag|] == tag && s[|tag| + 1..] == ty;
  }

  /** Does a new chunk begin at the current tag? */
  predicate StartOfChunk(prevTag: string, tag: string, prevType: string, ty: string)
  {
    if tag == "B" then true
    else if tag == "S" then true
    else if prevTag == "E" && tag == "E" then true
    else if prevTag == "E" && tag == "I" then true
    else if prevTag == "S" && tag == "E" then true
    else if prevTag == "S" && tag == "I" then true
    else if prevTag == "O" && tag == "E" then true
    else if prevTag == "O" && tag == "I" then true
    else tag != "O" && tag != "." && prevType != ty
  }

  /** Does the chunk that was open at the previous tag close before the current one? */
  predicate EndOfChunk(prevTag: string, tag: string, prevType: string, ty: string)
  {
    if prevTag == "E" then true
    else if prevTag == "S" then true
    else if prevTag == "B" && tag == "B" then true
    else if prevTag == "B" && tag == "S" then true
    else if prevTag == "B" && tag == "O" then true
    else if prevTag == "I" && tag == "B" then true
    else if prevTag == "I" && tag == "S" then true
    else if prevTag == "I" && tag == "O" then true
    else prevTag != "O" && prevTag != "." && prevType != ty
  }

  /** StartOfChunk by the kind of the current tag: a begin or single tag
      always starts a chunk, an outside tag never does, an inside or end tag
      does after an end, single or outside tag or on a change of type, and
      any other tag does exactly on a change of type. */
  lemma StartOfChunkCases(prevTag: string, tag: string, prevType: string, ty: string)
    ensures tag == "B" || tag == "S" ==> StartOfChunk(prevTag, tag, prevType, ty)
    ensures tag == "O" || tag == "." ==> !StartOfChunk(prevTag, tag, prevType, ty)
    ensures tag == "I" || tag == "E" ==>
      (StartOfChunk(prevTag, tag, prevType, ty) <==>
        prevTag == "E" || prevTag == "S" || prevTag == "O" || prevType != ty)
    ensures tag != "B" && tag != "S" && tag != "I" && tag != "E" && tag != "O" && tag != "." ==>
      (StartOfChunk(prevTag, tag, prevType, ty) <==> prevType != ty)
  {
  }

  /** EndOfChunk by the kind of the previous tag: after an end or single tag
      the chunk always closes, after an outside tag there is none to close,
      after a begin or inside tag it closes before a begin, single or outside
      tag or on a change of type, and after any other tag exactly on a change
      of type. */
  lemma EndOfChunkCases(prevTag: string, tag: string, prevType: string, ty: string)
    ensures prevTag == "E" || prevTag == "S" ==> EndOfChunk(prevTag, tag, prevType, ty)
    ensures prevTag == "O" || prevTag == "." ==> !EndOfChunk(prevTag, tag, prevType, ty)
    ensures prevTag == "B" || prevTag == "I" ==>
      (EndOfChunk(prevTag, tag, prevType, ty) <==>
        tag == "B" || tag == "S" || tag == "O" || prevType != ty)
    ensures prevTag != "B" && prevTag != "S" && prevTag != "I" && prevTag != "E" && prevTag != "O" && prevTag != "." ==>
      (EndOfChunk(prevTag, tag, prevType, ty) <==> prevType != ty)
  {
  }

  /** The scan state before position i: the previous tag and type and the
      start of the chunk being read. At position 0 the previous tag is "O",
      so no chunk can end there and `i - 1` is never taken of 0. */
  ghost predicate ScanState(i: nat, prevTag: string, begin: nat)
  {
    (i == 0 ==> prevTag == "O" && begin == 0) && (i > 0 ==> begin < i)
  }

  /** The chunk emitted at position i, if the one open before it closes. */
  function Emitted(prevTag: string, prevType: string, begin: nat, i: nat, cur: (string, string)): seq<Chunk>
    requires ScanState(i, prevTag, begin)
  {
    if EndOfChunk(prevTag, cur.0, prevType, cur.1) then
      assert i > 0 by { EndOfChunkCases(prevTag, cur.0, prevType, cur.1); }
      [Chunk(prevType, begin, i - 1)]
    else []
  }

  /** The start of the chunk being read after position i. */
  function NextBegin(prevTag: string, prevType: string, begin: nat, i: nat, cur: (string, string)): nat
  {
    if StartOfChunk(prevTag, cur.0, prevType, cur.1) then i else begin
  }

  /** The chunks that a left-to-right scan of s from position i emits. */
  function Scan(s: seq<string>, i: nat, prevTag: string, prevType: string, begin: nat): seq<Chunk>
    requires i <= |s|
    requires ScanState(i, prevTag, begin)
    decreases |s| - i
  {
    if i == |s| then []
    else
      var cur := SplitTag(s[i]);
      Emitted(prevTag, prevType, begin, i, cur)
        + Scan(s, i + 1, cur.0, cur.1, NextBegin(prevTag, prevType, begin, i, cur))
  }

  /** The chunks of a tag sequence, read with a sentinel "O" appended. */
  function Entities(tags: seq<string>): seq<Chunk>
  {
    ScanAll(tags + ["O"])
  }

  /** The chunks of s read from its start, with no chunk open. */
  function ScanAll(s: seq<string>): seq<Chunk>
  {
    Scan(s, 0, "O", "_", 0)
  }

  /** The scanner's variables after reading positions 0 .. i - 1. */
  datatype ScanAt = ScanAt(chunks: seq<Chunk>, prevTag: string, prevType: string, begin: nat)

  /** The left-to-right scan of s stopped before position i, step by step. */
  function Scanned(s: seq<string>, i: nat): (st: ScanAt)
    requires i <= |s|
    ensures ScanState(i, st.prevTag, st.begin)
  {
    if i == 0 then ScanAt([], "O", "_", 0)
    else
      var st := Scanned(s, i - 1);
      var cur := SplitTag(s[i - 1]);
      ScanAt(st.chunks + Emitted(st.prevTag, st.prevType, st.begin, i - 1, cur), cur.0, cur.1,
             NextBegin(st.prevTag, st.prevType, st.begin, i - 1, cur))
  }

  /** The chunks emitted before position i followed by those the scan emits
      from i are all the chunks of s. */
  lemma {:induction false} ScannedThenScan(s: seq<string>, i: nat)
    requires i <= |s|
    ensures Scanned(s, i).chunks + Scan(s, i, Scanned(s, i).prevTag, Scanned(s, i).prevType, Scanned(s, i).begin) == ScanAll(s)
  {
    if i > 0 {
      ScannedThenScan(s, i - 1);
      var st := Scanned(s, i - 1);
      var cur := SplitTag(s[i - 1]);
      var emitted := Emitted(st.prevTag, st.prevType, st.begin, i - 1, cur);
      var next := NextBegin(st.prevTag, st.prevType, st.begin, i - 1, cur);
      var rest := Scan(s, i, cur.0, cur.1, next);
      assert Scanned(s, i) == ScanAt(st.chunks + emitted, cur.0, cur.1, next);
      ScanStep(s, i - 1, st.prevTag, st.prevType, st.begin);
      AppendAssoc(st.chunks, emitted, rest);
      calc {
        Scanned(s, i).chunks + Scan(s, i, Scanned(s, i).prevTag, Scanned(s, i).prevType, Scanned(s, i).begin);
        (st.chunks + emitted) + rest;
        st.chunks + (emitted + rest);
        st.chunks + Scan(s, i - 1, st.prevTag, st.prevType, st.begin);
        ScanAll(s);
      }
    }
  }

  /** One step of the scan: the chunk closed at position i, then the rest. */
  lemma ScanStep(s: seq<string>, i: nat, prevTag: string, prevType: string, begin: nat)
    requires i < |s|
    requires ScanState(i, prevTag, begin)
    ensures var cur := SplitTag(s[i]);
      Scan(s, i, prevTag, prevType, begin)
        == Emitted(prevTag, prevType, begin, i, cur) + Scan(s, i + 1, cur.0, cur.1, NextBegin(prevTag, prevType, begin, i, cur))
  {
  }

  /** get_entities: the imperative scan. */
  method GetEntities(tags: seq<string>) returns (chunks: seq<Chunk>)
    ensures chunks == Entities(tags)
  {
    var s := tags + ["O"];
    var prevTag, prevType, begin := "O", "_", 0;
    chunks := [];
    var i := 0;
    while i < |s|
      invariant 0 <= i <= |s|
      invariant chunks == Scanned(s, i).chunks && prevTag == Scanned(s, i).prevTag
      invariant prevType == Scanned(s, i).prevType && begin == Scanned(s, i).begin
    {
      var cur := SplitTag(s[i]);
      var tag, ty := cur.0, cur.1;
      ghost var st := Scanned(s, i + 1);
      assert st.prevTag == tag && st.prevType == ty;
      if EndOfChunk(prevTag, tag, prevType, ty) {
        assert i > 0 by { EndOfChunkCases(prevTag, tag, prevType, ty); }
        chunks := chunks + [Chunk(prevType, begin, i - 1)];
      } else {
        assert chunks + [] == chunks;
      }
      assert st.chunks == chunks;
      if StartOfChunk(prevTag, tag, prevType, ty) {
        begin := i;
      }
      assert st.begin == begin;
      prevTag, prevType := tag, ty;
      i := i + 1;
    }
    ScannedThenScan(s, |s|);
    assert chunks + [] == chunks;
  }

  /** Chunks that are spans ending in [lo - 1, hi), with strictly increasing ends. */
  ghost predicate ChunksWithin(r: seq<Chunk>, lo: nat, hi: int)
  {
    && (forall k :: 0 <= k < |r| ==> r[k].start <= r[k].end && r[k].end < hi && lo <= r[k].end + 1)
    && (forall k, k' :: 0 <= k < k' < |r| ==> r[k].end < r[k'].end)
  }

  /** Every chunk a scan from position i emits is a well-formed span that
      ends before the last element of s and no earlier than i - 1, and the
      end positions strictly increase. */
  lemma {:induction false} ScanWellFormed(s: seq<string>, i: nat, prevTag: string, prevType: string, begin: nat)
    requires i <= |s|
    requires ScanState(i, prevTag, begin)
    ensures ChunksWithin(Scan(s, i, prevTag, prevType, begin), i, |s| - 1)
    decreases |s| - i
  {
    if i < |s| {
      var cur := SplitTag(s[i]);
      var begin' := NextBegin(prevTag, prevType, begin, i, cur);
      ScanWellFormed(s, i + 1, cur.0, cur.1, begin');
      EmittedShape(prevTag, prevType, begin, i, cur);
      PrependWithin(Emitted(prevTag, prevType, begin, i, cur), Scan(s, i + 1, cur.0, cur.1, begin'), i, |s| - 1);
    }
  }

  /** At most one chunk is emitted at position i, and it ends at i - 1. */
  lemma EmittedShape(prevTag: string, prevType: string, begin: nat, i: nat, cur: (string, string))
    requires ScanState(i, prevTag, begin)
    ensures var e := Emitted(prevTag, prevType, begin, i, cur);
      |e| <= 1 && (e != [] ==> 0 < i && e[0] == Chunk(prevType, begin, i - 1) && begin < i)
  {
    EndOfChunkCases(prevTag, cur.0, prevType, cur.1);
  }

  /** A chunk ending at i - 1, put before chunks ending at i or later, keeps
      the spans well formed and their ends increasing. */
  lemma PrependWithin(e: seq<Chunk>, rest: seq<Chunk>, i: nat, hi: int)
    requires ChunksWithin(rest, i + 1, hi) && i <= hi
    requires |e| <= 1 && (e != [] ==> 0 < i && e[0].start <= e[0].end && e[0].end + 1 == i)
    ensures ChunksWithin(e + rest, i, hi)
  {
    var r := e + rest;
    assert forall k :: |e| <= k < |r| ==> r[k] == rest[k - |e|];
  }

  /** Chunks are spans of the input (the sentinel is never part of one), at
      most one ends at each position, and they come in order. */
  lemma EntitiesWellFormed(tags: seq<string>)
    ensures var r := Entities(tags);
      && (forall k :: 0 <= k < |r| ==> r[k].start <= r[k].end < |tags|)
      && (forall k, k' :: 0 <= k < k' < |r| ==> r[k].end < r[k'].end)
  {
    ScanWellFormed(tags + ["O"], 0, "O", "_", 0);
    assert Entities(tags) == Scan(tags + ["O"], 0, "O", "_", 0);
    assert |tags + ["O"]| == |tags| + 1;
  }

  lemma {:induction false} ScanOutside(s: seq<string>, i: nat, begin: nat)
    requires i <= |s|
    requires ScanState(i, "O", begin)
    requires forall k :: i <= k < |s| ==> s[k] == "O"
    ensures Scan(s, i, "O", "_", begin) == []
    decreases |s| - i
  {
    if i < |s| {
      assert SplitTag(s[i]) == ("O", "_");
      ScanOutside(s, i + 1, begin);
    }
  }

  /** A sequence of "O" tags only has no chunks. */
  lemma AllOutsideNoChunks(tags: seq<string>)
    requires forall k :: 0 <= k < |tags| ==> tags[k] == "O"
    ensures Entities(tags) == []
  {
    ScanOutside(tags + ["O"], 0, 0);
  }

  ghost predicate InsideChunk(tag: string)
  {
    tag == "B" || tag == "I" || tag == "E" || tag == "S"
  }

  lemma {:induction false} ScanClosesAtSentinel(s: seq<string>, i: nat, prevTag: string, prevType: string, begin: nat)
    requires 2 <= |s| && s[|s| - 1] == "O"
    requires i < |s|
    requires ScanState(i, prevTag, begin)
    requires InsideChunk(if i == |s| - 1 then prevTag else SplitTag(s[|s| - 2]).0)
    ensures var r := Scan(s, i, prevTag, prevType, begin);
      r != [] && r[|r| - 1].end == |s| - 2
    decreases |s| - i
  {
    var cur := SplitTag(s[i]);
    var begin' := NextBegin(prevTag, prevType, begin, i, cur);
    var rest := Scan(s, i + 1, cur.0, cur.1, begin');
    assert Scan(s, i, prevTag, prevType, begin) == Emitted(prevTag, prevType, begin, i, cur) + rest;
    if i == |s| - 1 {
      assert cur == ("O", "_");
      assert rest == [];
    } else {
      ScanClosesAtSentinel(s, i + 1, cur.0, cur.1, begin');
    }
  }

  /** The appended sentinel closes a chunk still open at the end: when the
      last tag lies inside a chunk, the last chunk ends at the last position. */
  lemma SentinelClosesOpenChunk(tags: seq<string>)
    requires |tags| > 0 && InsideChunk(SplitTag(tags[|tags| - 1]).0)
    ensures var r := Entities(tags);
      r != [] && r[|r| - 1].end == |tags| - 1
  {
    var s := tags + ["O"];
    assert s[|s| - 2] == tags[|tags| - 1];
    ScanClosesAtSentinel(s, 0, "O", "_", 0);
  }

  lemma PerLocTags()
    ensures SplitTag("B-PER") == ("B", "PER") && SplitTag("I-PER") == ("I", "PER")
    ensures SplitTag("B-LOC") == ("B", "LOC") && SplitTag("O") == ("O", "_")
  {
    SplitJoin("B", "PER");
    SplitJoin("I", "PER");
    SplitJoin("B", "LOC");
    assert JoinTag("B", "PER") == "B-PER" && JoinTag("I", "PER") == "I-PER" && JoinTag("B", "LOC") == "B-LOC";
  }

  lemma PerLocSuffix(s: seq<string>)
    requires s == ["B-PER", "I-PER", "O", "B-LOC", "O"]
    ensures Scan(s, 2, "I", "PER", 0) == [Chunk("PER", 0, 1), Chunk("LOC", 3, 3)]
  {
    PerLocTags();
    var last := Scan(s, 4, "B", "LOC", 3);
    assert last == [Chunk("LOC", 3, 3)] by {
      assert EndOfChunk("B", "O", "LOC", "_");
      assert Scan(s, 5, "O", "_", 3) == [];
    }
    assert Scan(s, 3, "O", "_", 0) == last by {
      assert !EndOfChunk("O", "B", "_", "LOC") && StartOfChunk("O", "B", "_", "LOC");
    }
    assert EndOfChunk("I", "O", "PER", "_") && !StartOfChunk("I", "O", "PER", "_");
  }

  /** The unit-test example of the source. */
  lemma ExamplePerLoc()
    ensures Entities(["B-PER", "I-PER", "O", "B-LOC"]) == [Chunk("PER", 0, 1), Chunk("LOC", 3, 3)]
  {
    var s := ["B-PER", "I-PER", "O", "B-LOC", "O"];
    assert ["B-PER", "I-PER", "O", "B-LOC"] + ["O"] == s;
    PerLocTags();
    PerLocSuffix(s);
    var tail := [Chunk("PER", 0, 1), Chunk("LOC", 3, 3)];
    assert Scan(s, 1, "B", "PER", 0) == tail by {
      assert !EndOfChunk("B", "I", "PER", "PER") && !StartOfChunk("B", "I", "PER", "PER");
    }
    assert Scan(s, 0, "O", "_", 0) == tail by {
      assert !EndOfChunk("O", "B", "_", "PER") && StartOfChunk("O", "B", "_", "PER");
    }
  }

  /** A lone inside tag starts a chunk of its own: malformed input is read
      permissively. */
  lemma ExampleLoneInside()
    ensures Entities(["I-X"]) == [Chunk("X", 0, 0)]
  {
    var s := ["I-X", "O"];
    assert ["I-X"] + ["O"] == s;
    assert SplitTag(s[0]) == ("I", "X") by { SplitJoin("I", "X"); assert JoinTag("I", "X") == s[0]; }
    assert SplitTag(s[1]) == ("O", "_");
    assert Scan(s, 1, "I", "X", 0) == [Chunk("X", 0, 0)] by {
      assert EndOfChunk("I", "O", "X", "_");
      assert Scan(s, 2, "O", "_", 0) == [];
    }
    assert Scan(s, 0, "O", "_", 0) == [Chunk("X", 0, 0)] by {
      assert !EndOfChunk("O", "I", "_", "X") && StartOfChunk("O", "I", "_", "X");
    }
  }
}
