/** Reading a dynamic index back and joining its chunks, one after another or fetched in any order. */
module Didx {
  import opened Bytes
  import opened ChunkLayout
  import opened Options

  const DIDX_MAGIC: bytes := [28, 145, 78, 165, 25, 186, 179, 205]
  const CATALOG_MAGIC: bytes := [145, 253, 96, 249, 196, 103, 88, 213]

  datatype DidxError =
    | PbsResponse | TooShort | BadMagic | Empty | NoChunks | ZeroStream | ChunkMissing | OffsetMismatch | InvalidIndex
    /** The caller's own, while looking at the stream as it grows. */
    | Watcher

  datatype Result<+T> = Ok(value: T) | Err(error: DidxError)

  /** Row `i` of the index body: an end offset and a digest. */
  function RowAt(body: bytes, i: nat): Record
    requires 40 * i + 40 <= |body|
  {
    Record(U64(body, 40 * i), body[40 * i + 8..40 * i + 40])
  }

  function Rows(body: bytes): (rows: seq<Record>)
    ensures |rows| == |body| / 40
  {
    seq(|body| / 40, i requires 0 <= i < |body| / 40 => RowAt(body, i))
  }

  predicate Ascending(records: seq<Record>) {
    forall i, j :: 0 <= i < j < |records| ==> records[i].offset <= records[j].offset
  }

  function Inserted(sorted: seq<Record>, r: Record): seq<Record> {
    if sorted == [] then [r]
    else if r.offset < sorted[0].offset then [r] + sorted
    else [sorted[0]] + Inserted(sorted[1..], r)
  }

  lemma {:induction false} InsertedAre(sorted: seq<Record>, r: Record)
    ensures multiset(Inserted(sorted, r)) == multiset(sorted) + multiset{r}
  {
    if sorted != [] && r.offset >= sorted[0].offset {
      InsertedAre(sorted[1..], r);
      assert sorted == [sorted[0]] + sorted[1..];
    }
  }

  lemma {:induction false} InsertedIsSorted(sorted: seq<Record>, r: Record)
    requires Ascending(sorted)
    ensures Ascending(Inserted(sorted, r))
    ensures forall x <- Inserted(sorted, r) :: x == r || x in sorted
  {
    hide Ascending;
    if sorted == [] {
      OneIsSorted(r);
    } else if r.offset < sorted[0].offset {
      FirstIsLeast(sorted);
      LeastFirst(r, sorted);
    } else {
      FirstIsLeast(sorted);
      InsertedIsSorted(sorted[1..], r);
      LeastFirst(sorted[0], Inserted(sorted[1..], r));
    }
  }

  lemma OneIsSorted(r: Record)
    ensures Ascending([r])
  {
  }

  lemma FirstIsLeast(sorted: seq<Record>)
    requires Ascending(sorted) && sorted != []
    ensures Ascending(sorted[1..]) && forall x <- sorted :: sorted[0].offset <= x.offset
  {
    forall i, j | 0 <= i < j < |sorted| - 1
      ensures sorted[1..][i].offset <= sorted[1..][j].offset
    {
      assert sorted[1..][i] == sorted[i + 1] && sorted[1..][j] == sorted[j + 1];
    }
  }

  lemma LeastFirst(first: Record, rest: seq<Record>)
    requires Ascending(rest) && forall x <- rest :: first.offset <= x.offset
    ensures Ascending([first] + rest)
  {
    forall i, j | 0 <= i < j < |rest| + 1
      ensures ([first] + rest)[i].offset <= ([first] + rest)[j].offset
    {
      assert rest[j - 1] in rest;
    }
  }

  /** `sort.Slice` by offset: some ascending rearrangement. */
  method SortByOffset(records: seq<Record>) returns (sorted: seq<Record>)
    ensures Ascending(sorted) && multiset(sorted) == multiset(records)
  {
    hide Inserted, Ascending;
    sorted := [];
    NothingIsSorted();
    for i := 0 to |records|
      invariant Ascending(sorted) && multiset(sorted) == multiset(records[..i])
    {
      InsertedIsSorted(sorted, records[i]);
      InsertedAre(sorted, records[i]);
      assert records[..i + 1] == records[..i] + [records[i]];
      sorted := Inserted(sorted, records[i]);
    }
    assert records[..|records|] == records;
  }

  lemma NothingIsSorted()
    ensures Ascending([])
  {
  }

  method ParseDidxRecords(didx: bytes) returns (r: Result<seq<Record>>)
    ensures r.Ok? <==> |didx| >= 4096 && DIDX_MAGIC <= didx
    ensures r.Ok? ==> Ascending(r.value) && multiset(r.value) == multiset(Rows(didx[4096..]))
    ensures r.Err? ==> r.error == if |didx| >= 4096 then BadMagic
                                  else if |didx| > 0 && didx[0] == 123 then PbsResponse else TooShort
  {
    if |didx| < 4096 {
      if |didx| > 0 && didx[0] == 123 { return Err(PbsResponse); }
      return Err(TooShort);
    }
    if !(DIDX_MAGIC <= didx) { return Err(BadMagic); }
    var body := didx[4096..];
    var records, i := [], 0;
    while 40 * i + 40 <= |body|
      invariant 0 <= i <= |body| / 40 && records == Rows(body)[..i]
      decreases |body| - 40 * i
    {
      records := records + [RowAt(body, i)];
      i := i + 1;
    }
    assert records == Rows(body);
    var sorted := SortByOffset(records);
    return Ok(sorted);
  }

  lemma WithoutFirst(a: seq<Record>)
    requires a != []
    ensures multiset(a[1..]) == multiset(a) - multiset{a[0]}
  {
    assert a == [a[0]] + a[1..];
  }

  lemma SameLeast(a: seq<Record>, b: seq<Record>)
    requires a != [] && b != [] && multiset(a) == multiset(b) && Ascending(b)
    requires forall i, j :: 0 <= i < j < |a| ==> a[i].offset < a[j].offset
    ensures a[0] == b[0]
  {
    assert a[0] in multiset(b) && b[0] in multiset(a);
    var i :| 0 <= i < |a| && a[i] == b[0];
    var j :| 0 <= j < |b| && b[j] == a[0];
    assert b[0].offset <= b[j].offset;
  }

  /** Strictly ascending records have only one ascending arrangement: their own. */
  lemma {:induction false} SortedIsUnique(a: seq<Record>, b: seq<Record>)
    requires forall i, j :: 0 <= i < j < |a| ==> a[i].offset < a[j].offset
    requires Ascending(b) && multiset(a) == multiset(b)
    ensures a == b
    decreases |a|
  {
    assert |multiset(a)| == |a| && |multiset(b)| == |b|;
    if a != [] {
      SameLeast(a, b);
      WithoutFirst(a);
      WithoutFirst(b);
      assert forall i | 0 <= i < |a| - 1 :: a[1..][i] == a[i + 1];
      assert forall i | 0 <= i < |b| - 1 :: b[1..][i] == b[i + 1];
      SortedIsUnique(a[1..], b[1..]);
    }
  }

  // The index as the server writes it.

  function RowBytes(records: seq<Record>): (b: bytes)
    requires forall r <- records :: |r.digest| == 32
    ensures |b| == 40 * |records|
  {
    if records == [] then [] else
      RowBytes(records[..|records| - 1]) + (LE64(records[|records| - 1].offset) + records[|records| - 1].digest)
  }

  lemma {:induction false} RowsReadBack(records: seq<Record>)
    requires forall r <- records :: |r.digest| == 32 && r.offset < TWO_64
    ensures Rows(RowBytes(records)) == records
    decreases |records|
  {
    hide ToLE, FromLE;
    if records != [] {
      var n := |records| - 1;
      var init, last := RowBytes(records[..n]), records[n];
      var body := RowBytes(records);
      RowsReadBack(records[..n]);
      var row := LE64(last.offset) + last.digest;
      forall i | 0 <= i < n
        ensures RowAt(body, i) == records[i]
      {
        RowInPrefix(init, row, i);
        assert Rows(init)[i] == RowAt(init, i);
      }
      LastRow(init, last, n);
    }
  }

  lemma RowInPrefix(init: bytes, row: bytes, i: nat)
    requires 40 * i + 40 <= |init|
    ensures RowAt(init + row, i) == RowAt(init, i)
  {
    hide FromLE;
    assert (init + row)[40 * i..40 * i + 8] == init[40 * i..40 * i + 8];
    assert (init + row)[40 * i + 8..40 * i + 40] == init[40 * i + 8..40 * i + 40];
  }

  lemma LastRow(init: bytes, last: Record, n: nat)
    requires |init| == 40 * n && |last.digest| == 32 && last.offset < TWO_64
    ensures RowAt(init + (LE64(last.offset) + last.digest), n) == last
  {
    hide FromLE, ToLE;
    var body := init + (LE64(last.offset) + last.digest);
    assert At(body, 40 * n, LE64(last.offset) + last.digest);
    AtSplit(body, 40 * n, LE64(last.offset), last.digest);
    AtU64(body, 40 * n, last.offset);
  }

  // Joining the chunks.

  /** The chunks the store has for these records. */
  function ChunksOf(records: seq<Record>, store: map<Digest, bytes>): (chunks: seq<bytes>)
    requires forall r <- records :: r.digest in store
    ensures |chunks| == |records|
  {
    seq(|records|, i requires 0 <= i < |records| => store[records[i].digest])
  }

  /** Each record's offset is where its chunk ends. */
  predicate EndsMatch(records: seq<Record>, chunks: seq<bytes>)
    requires |chunks| == |records|
  {
    forall i | 0 <= i < |records| :: records[i].offset == |Flatten(chunks[..i + 1])|
  }

  /** The stream can be put together again. */
  predicate Joinable(records: seq<Record>, store: map<Digest, bytes>) {
    && records != []
    && (forall r <- records :: r.digest in store)
    && EndsMatch(records, ChunksOf(records, store))
  }

  /** These are the first chunks the store has for the records, and each ends where its record says. */
  ghost predicate JoinedTo(records: seq<Record>, store: map<Digest, bytes>, chunks: seq<bytes>) {
    && |chunks| <= |records|
    && (forall k | 0 <= k < |chunks| :: records[k].digest in store && chunks[k] == store[records[k].digest])
    && EndsMatch(records[..|chunks|], chunks)
  }

  lemma NothingJoined(records: seq<Record>, store: map<Digest, bytes>)
    ensures JoinedTo(records, store, []) && Flatten<byte>([]) == []
  {
  }

  /** The next chunk either ends where its record says, or the stream cannot be put together. */
  lemma JoinNext(records: seq<Record>, store: map<Digest, bytes>, chunks: seq<bytes>)
    requires JoinedTo(records, store, chunks) && |chunks| < |records| && records[|chunks|].digest in store
    ensures var r := records[|chunks|]; var chunk := store[r.digest];
      && Flatten(chunks + [chunk]) == Flatten(chunks) + chunk
      && if r.offset == |Flatten(chunks)| + |chunk| then JoinedTo(records, store, chunks + [chunk])
         else !Joinable(records, store)
  {
    hide Flatten, EndsMatch;
    var i := |chunks|;
    var chunk := store[records[i].digest];
    JoinStep(records[..i], chunks, records[i], chunk);
    assert records[..i] + [records[i]] == records[..i + 1];
    if records[i].offset != |Flatten(chunks)| + |chunk| && forall r <- records :: r.digest in store {
      MismatchIsFinal(records, store, chunks + [chunk], i);
    }
  }

  lemma JoinedAll(records: seq<Record>, store: map<Digest, bytes>, chunks: seq<bytes>)
    requires JoinedTo(records, store, chunks) && |chunks| == |records| > 0
    ensures Joinable(records, store) && Flatten(ChunksOf(records, store)) == Flatten(chunks)
    ensures |Flatten(chunks)| == records[|records| - 1].offset
  {
    hide Flatten;
    assert records[..|records|] == records && chunks[..|chunks|] == chunks;
    forall r <- records
      ensures r.digest in store
    {
      var k :| 0 <= k < |records| && records[k] == r;
    }
    assert chunks == ChunksOf(records, store);
  }

  lemma MissingIsFinal(records: seq<Record>, store: map<Digest, bytes>, i: nat)
    requires i < |records| && records[i].digest !in store
    ensures !Joinable(records, store)
  {
    assert records[i] in records;
  }

  lemma JoinStep(records: seq<Record>, chunks: seq<bytes>, r: Record, chunk: bytes)
    requires |records| == |chunks| && EndsMatch(records, chunks)
    ensures Flatten(chunks + [chunk]) == Flatten(chunks) + chunk
    ensures r.offset == |Flatten(chunks)| + |chunk| ==> EndsMatch(records + [r], chunks + [chunk])
  {
    hide Flatten;
    FlattenOne(chunks, chunk);
    if r.offset == |Flatten(chunks)| + |chunk| {
      forall i | 0 <= i < |records| + 1
        ensures (records + [r])[i].offset == |Flatten((chunks + [chunk])[..i + 1])|
      {
        assert (chunks + [chunk])[..i + 1] == if i < |records| then chunks[..i + 1] else chunks + [chunk];
      }
    }
  }

  lemma MismatchIsFinal(records: seq<Record>, store: map<Digest, bytes>, chunks: seq<bytes>, i: nat)
    requires (forall r <- records :: r.digest in store) && i < |records| && |chunks| == i + 1
    requires forall k | 0 <= k <= i :: chunks[k] == store[records[k].digest]
    requires records[i].offset != |Flatten(chunks)|
    ensures !EndsMatch(records, ChunksOf(records, store))
  {
    assert ChunksOf(records, store)[..i + 1] == chunks;
  }

  method ReassembleFromRecords(records: seq<Record>, store: map<Digest, bytes>) returns (r: Result<bytes>)
    requires Ascending(records)
    ensures r.Ok? <==> Joinable(records, store) && records[|records| - 1].offset > 0
    ensures r.Ok? ==> r.value == Flatten(ChunksOf(records, store))
  {
    hide Flatten, JoinedTo, Joinable;
    if |records| == 0 { NothingToJoin(store); return Err(NoChunks); }
    var total := records[|records| - 1].offset;
    if total == 0 { return Err(ZeroStream); }
    var out := new byte[total];
    var start := 0;
    var i := 0;
    ghost var chunks: seq<bytes> := [];
    NothingJoined(records, store);
    while i < |records|
      invariant 0 <= i == |chunks| <= |records| && JoinedTo(records, store, chunks)
      invariant start == |Flatten(chunks)| && start <= total && (i > 0 ==> start == records[i - 1].offset)
      invariant out[..start] == Flatten(chunks)
    {
      if records[i].digest !in store {
        MissingIsFinal(records, store, i);
        return Err(ChunkMissing);
      }
      JoinNext(records, store, chunks);
      var chunk := store[records[i].digest];
      var end := start + |chunk|;
      if end != records[i].offset { return Err(OffsetMismatch); }
      ghost var before := out[..start];
      forall j | 0 <= j < |chunk| {
        out[start + j] := chunk[j];
      }
      assert out[..start] == before && out[..end] == before + chunk;
      chunks := chunks + [chunk];
      start := end;
      i := i + 1;
    }
    JoinedAll(records, store, chunks);
    assert out[..] == out[..total];
    return Ok(out[..]);
  }

  lemma NothingToJoin(store: map<Digest, bytes>)
    ensures !Joinable([], store)
  {
  }

  function Below(n: nat): (s: set<nat>)
    ensures forall i: nat :: i in s <==> i < n
  {
    if n == 0 then {} else Below(n - 1) + {n - 1}
  }

  predicate InRange(records: seq<Record>, x: int) {
    0 <= x < |records|
  }

  /** The asked-for chunks are fetched in any order; which of several errors is reported depends on it. */
  method DownloadChunksParallel(records: seq<Record>, indices: seq<int>, store: map<Digest, bytes>)
    returns (r: Result<map<int, bytes>>)
    ensures r.Ok? <==> forall x <- indices :: InRange(records, x) && records[x].digest in store
    ensures r.Ok? ==> forall x :: x in r.value <==> x in indices
    ensures r.Ok? ==> forall x <- indices :: r.value[x] == store[records[x].digest]
    ensures r.Err? ==> r.error == InvalidIndex || r.error == ChunkMissing
    ensures r == Err(InvalidIndex) ==> exists x <- indices :: !InRange(records, x)
    ensures r == Err(ChunkMissing) ==> exists x <- indices :: InRange(records, x) && records[x].digest !in store
  {
    var out: map<int, bytes> := map[];
    var running := Below(|indices|);
    while running != {}
      invariant forall i: nat :: i in running ==> i < |indices|
      invariant forall x <- out :: x in indices && InRange(records, x) && records[x].digest in store
      invariant forall x <- out :: out[x] == store[records[x].digest]
      invariant forall i: nat | i < |indices| :: i in running || indices[i] in out
      decreases |running|
    {
      var i: nat :| i in running;
      assert i < |indices|;
      var x := indices[i];
      assert x in indices;
      if !InRange(records, x) { return Err(InvalidIndex); }
      if records[x].digest !in store { return Err(ChunkMissing); }
      out := out[x := store[records[x].digest]];
      running := running - {i};
    }
    forall x <- indices
      ensures x in out
    {
      var i: nat :| i < |indices| && indices[i] == x;
    }
    return Ok(out);
  }

  function UpTo(n: nat): (s: seq<int>)
    ensures |s| == n && (forall i: int :: i in s <==> 0 <= i < n)
  {
    if n == 0 then [] else UpTo(n - 1) + [n - 1]
  }

  /** What a caller that looks at the stream as it grows makes of it. */
  datatype Verdict = GoOn | Stop | GivesUp

  type Watch = bytes -> Verdict

  /** The stream as far as the first `n` chunks; each is there and ends where its record says. */
  ghost predicate ReachesTo(records: seq<Record>, store: map<Digest, bytes>, n: nat, stream: bytes) {
    exists chunks: seq<bytes> :: |chunks| == n && JoinedTo(records, store, chunks) && Flatten(chunks) == stream
  }

  /** The watcher lets the stream pass after every chunk before the `n`-th. */
  ghost predicate PassedTo(records: seq<Record>, store: map<Digest, bytes>, watch: Watch, n: nat) {
    forall m, stream | 0 < m < n && ReachesTo(records, store, m, stream) :: watch(stream) == GoOn
  }

  /** The chunk after which the watcher first has a verdict of this kind. */
  ghost predicate FirstSays(records: seq<Record>, store: map<Digest, bytes>, watch: Watch, n: nat, v: Verdict) {
    && PassedTo(records, store, watch, n)
    && exists stream :: n > 0 && ReachesTo(records, store, n, stream) && watch(stream) == v
  }

  lemma ReachesOnce(records: seq<Record>, store: map<Digest, bytes>, chunks: seq<bytes>, stream: bytes)
    requires JoinedTo(records, store, chunks)
    ensures ReachesTo(records, store, |chunks|, stream) <==> stream == Flatten(chunks)
  {
    hide Flatten, EndsMatch;
    if ReachesTo(records, store, |chunks|, stream) {
      var other: seq<bytes> :| |other| == |chunks| && JoinedTo(records, store, other) && Flatten(other) == stream;
      assert other == chunks;
    }
  }

  /**
   The streaming form. With nobody watching, several chunks are fetched in parallel. A watcher sees the stream after
   every chunk, and may end it there or fail it; the stream comes back if he lets all of it pass.
   */
  method ReassembleProgress(records: seq<Record>, store: map<Digest, bytes>, watch: Option<Watch>)
    returns (r: Result<Option<bytes>>)
    ensures r.Ok? && r.value.Some? ==> Joinable(records, store) && r.value.value == Flatten(ChunksOf(records, store))
    ensures r.Ok? && r.value.Some? && watch.Some? ==> PassedTo(records, store, watch.value, |records| + 1)
    ensures r == Ok(None) ==> watch.Some? && exists n :: FirstSays(records, store, watch.value, n, Stop)
    ensures r == Err(Watcher) ==> watch.Some? && exists n :: FirstSays(records, store, watch.value, n, GivesUp)
    ensures r.Err? && r.error != Watcher ==> !Joinable(records, store)
  {
    hide Flatten, UpTo, JoinedTo, Joinable, ReachesTo;
    if |records| == 0 { NothingToJoin(store); return Err(NoChunks); }
    var parallel := watch.None? && |records| > 1;
    var fetched: map<int, bytes> := map[];
    if parallel {
      var all := DownloadChunksParallel(records, UpTo(|records|), store);
      if all.Err? {
        ghost var x :| x in UpTo(|records|) && records[x].digest !in store;
        MissingIsFinal(records, store, x);
        return Err(all.error);
      }
      fetched := all.value;
    }
    var spill, i := [], 0;
    ghost var chunks: seq<bytes> := [];
    NothingJoined(records, store);
    while i < |records|
      invariant 0 <= i == |chunks| <= |records| && JoinedTo(records, store, chunks)
      invariant spill == Flatten(chunks)
      invariant watch.Some? ==> PassedTo(records, store, watch.value, i + 1)
    {
      assert parallel ==> i in UpTo(|records|);
      if !parallel && records[i].digest !in store {
        MissingIsFinal(records, store, i);
        return Err(ChunkMissing);
      }
      var chunk := if parallel then fetched[i] else store[records[i].digest];
      JoinNext(records, store, chunks);
      if |spill| + |chunk| != records[i].offset { return Err(OffsetMismatch); }
      spill := spill + chunk;
      chunks := chunks + [chunk];
      i := i + 1;
      if watch.Some? {
        ReachesOnce(records, store, chunks, spill);
        var v := watch.value(spill);
        if v != GoOn { assert FirstSays(records, store, watch.value, i, v); }
        if v.GivesUp? { return Err(Watcher); }
        if v.Stop? { return Ok(None); }
        OneMorePassed(records, store, watch.value, chunks);
      }
    }
    JoinedAll(records, store, chunks);
    return Ok(Some(spill));
  }

  lemma OneMorePassed(records: seq<Record>, store: map<Digest, bytes>, watch: Watch, chunks: seq<bytes>)
    requires JoinedTo(records, store, chunks) && watch(Flatten(chunks)) == GoOn
    requires PassedTo(records, store, watch, |chunks|)
    ensures PassedTo(records, store, watch, |chunks| + 1)
  {
    hide Flatten, JoinedTo, ReachesTo;
    forall m, stream | 0 < m < |chunks| + 1 && ReachesTo(records, store, m, stream)
      ensures watch(stream) == GoOn
    {
      if m == |chunks| { ReachesOnce(records, store, chunks, stream); }
    }
  }

  /** Loading an archive: a catalog stands for itself, anything else is an index to resolve. */
  method ReassembleDynamicBytes(raw: bytes, store: map<Digest, bytes>, ghost records: seq<Record>,
                                ghost pieces: seq<bytes>)
    returns (r: Result<bytes>)
    ensures raw != [] && CATALOG_MAGIC <= raw ==> r == Ok(raw)
    ensures IndexOf(raw, records) && Describes(records, pieces) && records != []
            && (forall i | 0 <= i < |records| :: records[i].digest in store && store[records[i].digest] == pieces[i])
            ==> r == Ok(Flatten(pieces))
  {
    hide Flatten, Rows;
    if |raw| == 0 { return Err(Empty); }
    if CATALOG_MAGIC <= raw {
      assert raw[0] == 145;
      return Ok(raw);
    }
    var parsed := ParseDidxRecords(raw);
    if parsed.Err? { return Err(parsed.error); }
    r := ReassembleFromRecords(parsed.value, store);
    if IndexOf(raw, records) && Describes(records, pieces) && records != []
       && forall i | 0 <= i < |records| :: records[i].digest in store && store[records[i].digest] == pieces[i]
    {
      StrictlyAscending(records, pieces);
      SortedIsUnique(records, parsed.value);
      assert ChunksOf(records, store) == pieces;
      EndOfLast(records, pieces);
      ChunkIsStretch(records, pieces, |records| - 1);
    }
  }

  /** `raw` is a dynamic index file with exactly these rows. */
  predicate IndexOf(raw: bytes, records: seq<Record>) {
    |raw| >= 4096 && DIDX_MAGIC <= raw && Rows(raw[4096..]) == records
  }

  lemma StrictlyAscending(records: seq<Record>, pieces: seq<bytes>)
    requires Describes(records, pieces)
    ensures forall i, j :: 0 <= i < j < |records| ==> records[i].offset < records[j].offset
  {
    forall i, j | 0 <= i < j < |records|
      ensures records[i].offset < records[j].offset
    {
      OffsetsGrow(records, pieces, i, j);
    }
  }
}
