/** Which slices of which chunks make up a range of the stream. */
module ChunkSpans {
  import opened Bytes
  import opened ChunkLayout
  import opened Didx

  /** A slice of a chunk as it stands in the stream. */
  datatype Span = Span(digest: Digest, len: int, partial: bool)

  /** A chunk and the stretch of the stream it takes up. */
  datatype Stretch = Stretch(digest: Digest, from: nat, to: nat)

  function Max(a: nat, b: nat): nat { if a < b then b else a }

  function Min(a: nat, b: nat): nat { if a < b then a else b }

  /** A stretch's share of the range from `start` to `end`, if it has one. */
  function SpanOf(s: Stretch, start: nat, end: nat): seq<Span> {
    var lo, hi := Max(s.from, start), Min(s.to, end);
    if lo < hi then [Span(s.digest, hi - lo, lo > s.from || hi < s.to)] else []
  }

  /** The stretches' shares, in order. */
  function Cut(stretches: seq<Stretch>, start: nat, end: nat): seq<Span> {
    if stretches == [] then [] else SpanOf(stretches[0], start, end) + Cut(stretches[1..], start, end)
  }

  lemma {:induction false} CutAppend(a: seq<Stretch>, b: seq<Stretch>, start: nat, end: nat)
    ensures Cut(a + b, start, end) == Cut(a, start, end) + Cut(b, start, end)
  {
    hide SpanOf;
    if a == [] {
      assert a + b == b;
    } else {
      assert (a + b)[0] == a[0] && (a + b)[1..] == a[1..] + b;
      CutAppend(a[1..], b, start, end);
      var x, y, z := SpanOf(a[0], start, end), Cut(a[1..], start, end), Cut(b, start, end);
      assert x + (y + z) == (x + y) + z;
    }
  }

  function RecordStretches(records: seq<Record>): (s: seq<Stretch>)
    ensures |s| == |records|
  {
    seq(|records|, i requires 0 <= i < |records| =>
      Stretch(records[i].digest, ChunkStart(records, i), records[i].offset))
  }

  function AssignmentStretches(assignments: seq<Digest>, offsets: seq<nat>, streamEnd: nat): (s: seq<Stretch>)
    requires |assignments| == |offsets|
    ensures |s| == |assignments|
  {
    seq(|assignments|, i requires 0 <= i < |assignments| =>
      Stretch(assignments[i], offsets[i], if i + 1 < |offsets| then offsets[i + 1] else streamEnd))
  }

  lemma CutOne(stretches: seq<Stretch>, i: nat, start: nat, end: nat)
    requires i < |stretches|
    ensures Cut(stretches[..i + 1], start, end) == Cut(stretches[..i], start, end) + SpanOf(stretches[i], start, end)
  {
    hide SpanOf;
    var last := [stretches[i]];
    assert stretches[..i + 1] == stretches[..i] + last;
    CutAppend(stretches[..i], last, start, end);
    assert last[1..] == [];
    assert Cut(last, start, end) == SpanOf(stretches[i], start, end) + [];
  }

  lemma {:induction false} NothingBeyond(stretches: seq<Stretch>, start: nat, end: nat)
    requires forall s <- stretches :: s.from >= end
    ensures Cut(stretches, start, end) == []
  {
    if stretches != [] {
      NothingBeyond(stretches[1..], start, end);
    }
  }

  /** The end-offset form: it may stop early because the records ascend. */
  method ChunkSpansForRange(records: seq<Record>, start: nat, end: nat) returns (spans: seq<Span>)
    requires Ascending(records)
    ensures spans == if end <= start then [] else Cut(RecordStretches(records), start, end)
  {
    hide Cut;
    CutOfNothing(start, end);
    if end <= start || |records| == 0 { return []; }
    ghost var all := RecordStretches(records);
    var prev := 0;
    spans := [];
    var i := 0;
    while i < |records|
      invariant 0 <= i <= |records| && prev == (if i == 0 then 0 else records[i - 1].offset)
      invariant spans == Cut(all[..i], start, end)
    {
      CutOne(all, i, start, end);
      var r := records[i];
      if r.offset > start {
        if prev >= end {
          assert all == all[..i] + all[i..];
          CutAppend(all[..i], all[i..], start, end);
          NothingBeyond(all[i..], start, end);
          return;
        }
        var useStart, useEnd := prev, r.offset;
        if useStart < start { useStart := start; }
        if useEnd > end { useEnd := end; }
        if useStart < useEnd {
          spans := spans + [Span(r.digest, useEnd - useStart, useStart > prev || useEnd < r.offset)];
        }
      }
      prev := r.offset;
      i := i + 1;
    }
    assert all[..|all|] == all;
  }

  lemma CutOfNothing(start: nat, end: nat)
    ensures Cut([], start, end) == []
  {
  }

  /** The start-offset form, used while the stream is being written. */
  method ChunkSpansFromAssignments(assignments: seq<Digest>, offsets: seq<nat>, streamEnd: nat, start: nat, end: nat)
    returns (spans: seq<Span>)
    ensures spans == if end <= start || |offsets| != |assignments| then []
                     else Cut(AssignmentStretches(assignments, offsets, streamEnd), start, end)
  {
    hide Cut;
    CutOfNothing(start, end);
    if end <= start || |assignments| == 0 || |offsets| != |assignments| { return []; }
    ghost var all := AssignmentStretches(assignments, offsets, streamEnd);
    spans := [];
    for i := 0 to |assignments|
      invariant spans == Cut(all[..i], start, end)
    {
      CutOne(all, i, start, end);
      var chunkStart, chunkEnd := offsets[i], streamEnd;
      if i + 1 < |offsets| { chunkEnd := offsets[i + 1]; }
      if !(chunkEnd <= start || chunkStart >= end) {
        var useStart, useEnd := chunkStart, chunkEnd;
        if useStart < start { useStart := start; }
        if useEnd > end { useEnd := end; }
        if useStart < useEnd {
          spans := spans + [Span(assignments[i], useEnd - useStart, useStart > chunkStart || useEnd < chunkEnd)];
        }
      }
    }
    assert all[..|all|] == all;
  }

  /** The two forms see the same chunks in the same places. */
  lemma BothFormsAgree(records: seq<Record>, chunks: seq<bytes>, assignments: seq<Digest>, offsets: seq<nat>)
    requires Describes(records, chunks) && |assignments| == |offsets| == |records|
    requires forall i | 0 <= i < |records| :: assignments[i] == records[i].digest
    requires forall i | 0 <= i < |records| :: offsets[i] == ChunkStart(records, i)
    ensures AssignmentStretches(assignments, offsets, |Flatten(chunks)|) == RecordStretches(records)
  {
    hide Flatten, Describes;
    var total := |Flatten(chunks)|;
    if records != [] { EndOfLast(records, chunks); }
    forall i | 0 <= i < |records|
      ensures AssignmentStretches(assignments, offsets, total)[i] == RecordStretches(records)[i]
    {
      if i + 1 < |records| { assert offsets[i + 1] == ChunkStart(records, i + 1); }
    }
  }

  // What the spans of a range hold.

  /** The chunks lie one after another from `base` on. */
  predicate Laid(stretches: seq<Stretch>, chunks: seq<bytes>, base: nat)
  {
    |stretches| == |chunks| &&
    (stretches == [] ||
     (stretches[0].from == base && stretches[0].to == base + |chunks[0]|
      && Laid(stretches[1..], chunks[1..], base + |chunks[0]|)))
  }

  lemma {:induction false} StretchesAreLaid(records: seq<Record>, chunks: seq<bytes>, i: nat)
    requires Describes(records, chunks) && i <= |records|
    ensures Laid(RecordStretches(records)[i..], chunks[i..], |Flatten(chunks[..i])|)
    decreases |records| - i
  {
    hide Flatten;
    if i < |records| {
      ChunkIsStretch(records, chunks, i);
      PrefixBytes(chunks, i);
      StretchesAreLaid(records, chunks, i + 1);
      assert RecordStretches(records)[i..][1..] == RecordStretches(records)[i + 1..];
      assert chunks[i..][1..] == chunks[i + 1..];
    }
  }

  function TotalLen(spans: seq<Span>): int {
    if spans == [] then 0 else spans[0].len + TotalLen(spans[1..])
  }

  function Clamp(x: int, n: nat): (r: nat)
    ensures r <= n
  {
    if x < 0 then 0 else if x > n then n else x
  }

  /** The part of `s`, which starts at stream offset `base`, that lies between `start` and `end`. */
  function Within(s: bytes, base: nat, start: nat, end: nat): bytes
    requires start <= end
  {
    s[Clamp(start - base, |s|)..Clamp(end - base, |s|)]
  }

  lemma WithinSplit(a: bytes, b: bytes, base: nat, start: nat, end: nat)
    requires start <= end
    ensures Within(a + b, base, start, end) == Within(a, base, start, end) + Within(b, base + |a|, start, end)
  {
    var lo, hi := Clamp(start - base, |a + b|), Clamp(end - base, |a + b|);
    if hi <= |a| {
      assert (a + b)[lo..hi] == a[lo..hi];
    } else if lo >= |a| {
      assert (a + b)[lo..hi] == b[lo - |a|..hi - |a|];
    } else {
      assert (a + b)[lo..hi] == a[lo..|a|] + b[0..hi - |a|];
    }
  }

  /** The slices themselves: what of each chunk lies in the range, where anything does. */
  function Slices(chunks: seq<bytes>, base: nat, start: nat, end: nat): seq<bytes>
    requires start <= end
  {
    if chunks == [] then [] else
      var w := Within(chunks[0], base, start, end);
      (if w == [] then [] else [w]) + Slices(chunks[1..], base + |chunks[0]|, start, end)
  }

  /** One chunk: a span of its slice's length, partial exactly when the slice is not the chunk. */
  lemma OneSpan(s: Stretch, chunk: bytes, start: nat, end: nat)
    requires s.to == s.from + |chunk| && start <= end
    ensures var w := Within(chunk, s.from, start, end);
      SpanOf(s, start, end) == if w == [] then [] else [Span(s.digest, |w|, w != chunk)]
  {
    var w := Within(chunk, s.from, start, end);
    assert |w| == |chunk| ==> w == chunk;
  }

  /** The indices, counted from `at`, of the chunks that have a slice in the range. */
  function Touched(chunks: seq<bytes>, at: nat, base: nat, start: nat, end: nat): (picks: seq<nat>)
    requires start <= end
    ensures forall i | 0 <= i < |picks| :: at <= picks[i] < at + |chunks|
    ensures forall i, j | 0 <= i < j < |picks| :: picks[i] < picks[j]
  {
    if chunks == [] then [] else
      var later := Touched(chunks[1..], at + 1, base + |chunks[0]|, start, end);
      if Within(chunks[0], base, start, end) == [] then later else [at] + later
  }

  /** A span names the chunk its slice is cut from, and is partial exactly when the slice is not that whole chunk. */
  predicate SpanIsSlice(sp: Span, slice: bytes, s: Stretch, chunk: bytes, start: nat, end: nat)
    requires start <= end
  {
    slice != [] && slice == Within(chunk, s.from, start, end) && sp == Span(s.digest, |slice|, slice != chunk)
  }

  /** Span `i` and slice `i` belong to the chunk of index `picks[i]`, counted from `at`. */
  predicate Paired(spans: seq<Span>, slices: seq<bytes>, picks: seq<nat>, stretches: seq<Stretch>, chunks: seq<bytes>,
                   at: nat, start: nat, end: nat)
    requires |stretches| == |chunks| && start <= end
  {
    |spans| == |slices| == |picks| &&
    forall i | 0 <= i < |spans| ::
      var k := picks[i] - at;
      0 <= k < |chunks| && SpanIsSlice(spans[i], slices[i], stretches[k], chunks[k], start, end)
  }

  lemma PairedLater(spans: seq<Span>, slices: seq<bytes>, picks: seq<nat>, stretches: seq<Stretch>, chunks: seq<bytes>,
                    at: nat, start: nat, end: nat)
    requires |stretches| == |chunks| > 0 && start <= end
    requires Paired(spans, slices, picks, stretches[1..], chunks[1..], at + 1, start, end)
    ensures Paired(spans, slices, picks, stretches, chunks, at, start, end)
  {
    hide SpanIsSlice;
    forall i | 0 <= i < |spans|
      ensures var k := picks[i] - at;
        0 <= k < |chunks| && SpanIsSlice(spans[i], slices[i], stretches[k], chunks[k], start, end)
    {
      var k := picks[i] - at;
      assert stretches[1..][k - 1] == stretches[k] && chunks[1..][k - 1] == chunks[k];
    }
  }

  lemma PairedFirst(sp: Span, slice: bytes, spans: seq<Span>, slices: seq<bytes>, picks: seq<nat>,
                    stretches: seq<Stretch>, chunks: seq<bytes>, at: nat, start: nat, end: nat)
    requires |stretches| == |chunks| > 0 && start <= end
    requires Paired(spans, slices, picks, stretches, chunks, at, start, end)
    requires SpanIsSlice(sp, slice, stretches[0], chunks[0], start, end)
    ensures Paired([sp] + spans, [slice] + slices, [at] + picks, stretches, chunks, at, start, end)
  {
    hide SpanIsSlice;
  }

  /**
   The spans of a range tile it: they are the shares of ever later chunks, and their slices, joined, are the range.
   */
  lemma {:induction false} SpansTile(stretches: seq<Stretch>, chunks: seq<bytes>, at: nat, base: nat,
                                     start: nat, end: nat)
    requires Laid(stretches, chunks, base) && start <= end
    ensures var spans, slices := Cut(stretches, start, end), Slices(chunks, base, start, end);
      && Paired(spans, slices, Touched(chunks, at, base, start, end), stretches, chunks, at, start, end)
      && Flatten(slices) == Within(Flatten(chunks), base, start, end)
      && TotalLen(spans) == |Flatten(slices)|
    decreases |stretches|
  {
    hide SpanOf, Within, Paired;
    if stretches == [] {
      NothingWithin(base, start, end);
      NothingPaired(at, start, end);
    } else {
      var s, c := stretches[0], chunks[0];
      SpansTile(stretches[1..], chunks[1..], at + 1, base + |c|, start, end);
      WithinSplit(c, Flatten(chunks[1..]), base, start, end);
      OneSpan(s, c, start, end);
      var w := Within(c, base, start, end);
      var spans, slices := Cut(stretches[1..], start, end), Slices(chunks[1..], base + |c|, start, end);
      var picks := Touched(chunks[1..], at + 1, base + |c|, start, end);
      PairedLater(spans, slices, picks, stretches, chunks, at, start, end);
      if w == [] {
        assert [] + spans == spans && [] + slices == slices;
      } else {
        var sp := Span(s.digest, |w|, w != c);
        PairedFirst(sp, w, spans, slices, picks, stretches, chunks, at, start, end);
        assert ([sp] + spans)[1..] == spans && ([w] + slices)[1..] == slices;
      }
    }
  }

  lemma NothingPaired(at: nat, start: nat, end: nat)
    requires start <= end
    ensures Paired([], [], [], [], [], at, start, end)
  {
  }

  lemma NothingWithin(base: nat, start: nat, end: nat)
    requires start <= end
    ensures Within([], base, start, end) == []
  {
  }

  /**
   For any range inside the stream, the spans name the chunks the range meets, each once and in order, say how much
   of each it takes and whether that is all of it; the slices joined are the range.
   */
  lemma RangeIsTiled(records: seq<Record>, chunks: seq<bytes>, start: nat, end: nat)
    requires Describes(records, chunks) && start <= end <= |Flatten(chunks)|
    ensures var spans, slices := Cut(RecordStretches(records), start, end), Slices(chunks, 0, start, end);
      var picks := Touched(chunks, 0, 0, start, end);
      && |spans| == |slices| == |picks|
      && (forall i | 0 <= i < |spans| ::
            && spans[i] == Span(records[picks[i]].digest, |slices[i]|, slices[i] != chunks[picks[i]])
            && slices[i] == Within(chunks[picks[i]], ChunkStart(records, picks[i]), start, end) != [])
      && Flatten(slices) == Flatten(chunks)[start..end] && TotalLen(spans) == end - start
  {
    hide Cut, Slices, Laid, Touched, Within;
    StretchesAreLaid(records, chunks, 0);
    var all := RecordStretches(records);
    assert all[0..] == all && chunks[0..] == chunks;
    assert Flatten(chunks[..0]) == [] by { assert chunks[..0] == []; }
    SpansTile(all, chunks, 0, 0, start, end);
    WithinWhole(Flatten(chunks), start, end);
    var spans, slices, picks := Cut(all, start, end), Slices(chunks, 0, start, end), Touched(chunks, 0, 0, start, end);
    forall i | 0 <= i < |spans|
      ensures spans[i] == Span(records[picks[i]].digest, |slices[i]|, slices[i] != chunks[picks[i]])
      ensures slices[i] == Within(chunks[picks[i]], ChunkStart(records, picks[i]), start, end) != []
    {
      assert SpanIsSlice(spans[i], slices[i], all[picks[i]], chunks[picks[i]], start, end);
    }
  }

  lemma WithinWhole(s: bytes, start: nat, end: nat)
    requires start <= end <= |s|
    ensures Within(s, 0, start, end) == s[start..end]
  {
  }

  // Replaying spans.

  predicate SpansReusable(spans: seq<Span>) {
    spans != [] && forall sp <- spans :: !sp.partial && sp.len > 0 && sp.digest != []
  }

  /** The chunks the spans name, joined. */
  function Contents(spans: seq<Span>, store: map<Digest, bytes>): bytes
    requires forall sp <- spans :: sp.digest in store
  {
    if spans == [] then [] else store[spans[0].digest] + Contents(spans[1..], store)
  }

  predicate Resolves(stretches: seq<Stretch>, chunks: seq<bytes>, store: map<Digest, bytes>) {
    |stretches| == |chunks| &&
    forall i | 0 <= i < |stretches| :: stretches[i].digest in store && store[stretches[i].digest] == chunks[i]
  }

  /** Whole-chunk spans name chunks whose contents, joined, are the range as far as it is committed. */
  lemma {:induction false} WholeSpansHold(stretches: seq<Stretch>, chunks: seq<bytes>, base: nat,
                                          start: nat, end: nat, store: map<Digest, bytes>)
    requires Laid(stretches, chunks, base) && Resolves(stretches, chunks, store) && start <= end
    requires forall sp <- Cut(stretches, start, end) :: !sp.partial
    ensures forall sp <- Cut(stretches, start, end) :: sp.digest in store && |store[sp.digest]| == sp.len
    ensures Contents(Cut(stretches, start, end), store) == Within(Flatten(chunks), base, start, end)
    ensures TotalLen(Cut(stretches, start, end)) == |Within(Flatten(chunks), base, start, end)|
    decreases |stretches|
  {
    hide SpanOf, Within;
    if stretches == [] {
      NothingWithin(base, start, end);
    } else {
      var s, c := stretches[0], chunks[0];
      var all, spans := Cut(stretches, start, end), Cut(stretches[1..], start, end);
      WithinSplit(c, Flatten(chunks[1..]), base, start, end);
      OneSpan(s, c, start, end);
      var w := Within(c, base, start, end);
      assert forall sp <- spans :: sp in all;
      WholeSpansHold(stretches[1..], chunks[1..], base + |c|, start, end, store);
      if w == [] {
        assert all == spans;
      } else {
        assert all == [Span(s.digest, |w|, w != c)] + spans;
        assert !all[0].partial;
        assert all[1..] == spans;
      }
    }
  }
}
