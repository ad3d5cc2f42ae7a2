/** When the record made of a file can be replayed. */
module RecordCuts {
  import opened Bytes
  import opened ChunkLayout
  import opened ChunkStream
  import opened ChunkSpans
  import opened FI = FastIncremental

  /** A chunk in the index ends here, or the stream starts. */
  predicate AtChunkEnd(records: seq<Record>, p: nat) {
    p == 0 || exists r <- records :: r.offset == p
  }

  predicate Splits(s: Stretch, p: nat) {
    s.from < p < s.to
  }

  /** The spans are whole chunks exactly if neither end of the range lies inside a chunk. */
  lemma {:induction false} WholeIfUnsplit(stretches: seq<Stretch>, start: nat, end: nat)
    requires start < end
    ensures (forall sp <- Cut(stretches, start, end) :: !sp.partial)
       <==> (forall s <- stretches :: !Splits(s, start) && !Splits(s, end))
    decreases |stretches|
  {
    if stretches != [] {
      WholeIfUnsplit(stretches[1..], start, end);
      var s, all, rest := stretches[0], Cut(stretches, start, end), Cut(stretches[1..], start, end);
      assert all == SpanOf(s, start, end) + rest;
      assert forall sp <- rest :: sp in all;
      assert forall sp <- SpanOf(s, start, end) :: sp in all;
      assert stretches == [s] + stretches[1..];
      if Splits(s, start) || Splits(s, end) {
        assert SpanOf(s, start, end)[0].partial;
      }
    }
  }

  /** A position in the index's part of the stream lies inside a chunk unless one ends there. */
  lemma InsideOrAtEnd(records: seq<Record>, chunks: seq<bytes>, p: nat)
    requires Describes(records, chunks) && p <= |Flatten(chunks)|
    ensures AtChunkEnd(records, p) <==> forall s <- RecordStretches(records) :: !Splits(s, p)
  {
    hide Flatten;
    var all := RecordStretches(records);
    if AtChunkEnd(records, p) && p > 0 {
      var j :| 0 <= j < |records| && records[j].offset == p;
      forall i | 0 <= i < |records|
        ensures !Splits(all[i], p)
      {
        if i < j { OffsetsGrow(records, chunks, i, j); }
        if j < i { OffsetsGrow(records, chunks, j, i); }
      }
    }
    if (forall s <- all :: !Splits(s, p)) && p > 0 {
      if records == [] { EmptyPieces(chunks); }
      EndOfLast(records, chunks);
      FirstAtOrBehind(records, p, |records| - 1);
    }
  }

  /** Among ascending ends, the first at or behind a position is that position if no chunk is split there. */
  lemma {:induction false} FirstAtOrBehind(records: seq<Record>, p: nat, i: nat)
    requires i < |records| && 0 < p <= records[i].offset
    requires forall s <- RecordStretches(records) :: !Splits(s, p)
    ensures AtChunkEnd(records, p)
    decreases i
  {
    var s := RecordStretches(records)[i];
    assert !Splits(s, p);
    if p != records[i].offset { FirstAtOrBehind(records, p, i - 1); }
  }

  /** A range that is not empty has spans, as far as its chunks are in the index, and each names one of them. */
  lemma SpansAreNamed(records: seq<Record>, chunks: seq<bytes>, start: nat, end: nat)
    requires Describes(records, chunks) && start < end <= |Flatten(chunks)|
    requires forall r <- records :: r.digest != []
    ensures var spans := Cut(RecordStretches(records), start, end);
      spans != [] && TotalLen(spans) == end - start && forall sp <- spans :: sp.len > 0 && sp.digest != []
  {
    hide Cut, Slices, Touched, Within, Flatten;
    RangeIsTiled(records, chunks, start, end);
    var spans, picks := Cut(RecordStretches(records), start, end), Touched(chunks, 0, 0, start, end);
    forall i | 0 <= i < |spans|
      ensures spans[i].len > 0 && spans[i].digest != []
    {
      assert records[picks[i]] in records;
    }
    if spans == [] { EmptyTotal(); }
  }

  lemma CommittedOnly(records: seq<Record>, chunks: seq<bytes>, start: nat, end: nat)
    requires Describes(records, chunks) && start < end
    requires forall sp <- Cut(RecordStretches(records), start, end) :: !sp.partial
    requires TotalLen(Cut(RecordStretches(records), start, end)) == end - start
    ensures end <= |Flatten(chunks)|
  {
    hide Cut, Flatten, TotalLen, Slices, Touched, Within, Laid;
    var all := RecordStretches(records);
    StretchesAreLaid(records, chunks, 0);
    assert all[0..] == all && chunks[0..] == chunks;
    assert |Flatten(chunks[..0])| == 0 by { EmptyPieces(chunks[..0]); }
    SpansTile(all, chunks, 0, 0, start, end);
    WithinLength(Flatten(chunks), start, end);
  }

  lemma WithinLength(s: bytes, start: nat, end: nat)
    requires start < end
    ensures |Within(s, 0, start, end)| == end - start <==> end <= |s|
  {
  }

  /**
   A record made at the end of a file can be replayed exactly if a chunk ends where the marked range starts and one
   where it ends.
   */
  lemma ReplayableAtChunkEnds(records: seq<Record>, chunks: seq<bytes>, start: nat, end: nat, rec: FileRecord)
    requires Describes(records, chunks) && start < end && (forall r <- records :: r.digest != [])
    requires rec.spans == Cut(RecordStretches(records), start, end) && rec.pxarLen == end - start
    ensures Replayable(rec) <==> AtChunkEnd(records, start) && AtChunkEnd(records, end)
  {
    hide Cut, Flatten, TotalLen, Describes, AtChunkEnd, Splits;
    if Replayable(rec) {
      CommittedOnly(records, chunks, start, end);
    } else if AtChunkEnd(records, end) {
      EndsInside(records, chunks, end);
      SpansAreNamed(records, chunks, start, end);
    }
    if end <= |Flatten(chunks)| {
      WholeIfUnsplit(RecordStretches(records), start, end);
      InsideOrAtEnd(records, chunks, start);
      InsideOrAtEnd(records, chunks, end);
    }
  }

  lemma EndsInside(records: seq<Record>, chunks: seq<bytes>, p: nat)
    requires Describes(records, chunks) && AtChunkEnd(records, p)
    ensures p <= |Flatten(chunks)|
  {
    hide Flatten;
    if p > 0 {
      var j :| 0 <= j < |records| && records[j].offset == p;
      ChunkIsStretch(records, chunks, j);
    }
  }

  /** Digests are never empty. */
  lemma DigestsAreGiven(hash: Hash, store: map<Digest, bytes>, records: seq<Record>)
    requires Collisionless(hash) && Honest(hash, store) && forall r <- records :: r.digest in store
    ensures forall r <- records :: r.digest != []
  {
    forall r <- records
      ensures r.digest != []
    {
      assert hash.sha(store[r.digest]) == r.digest;
    }
  }
}
