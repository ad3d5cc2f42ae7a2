/** The cache built from the latest backup on the server instead of from the disk. */
module CacheBootstrap {
  import opened Bytes
  import opened Options
  import opened PxarFormat
  import opened PxarStreamSpec
  import opened PxarIndexTheorem
  import opened PxarRestore
  import opened ChunkLayout
  import opened ChunkSpans
  import opened FI = FastIncremental
  import D = Didx
  import PS = PxarStream

  /** What the catalog says of a file. */
  datatype CatalogMeta = CatalogMeta(size: int, mtime: int)

  const MAX_BOOTSTRAP_CHUNKS: nat := 50_000

  function MetaOf(catalog: map<bytes, CatalogMeta>, key: bytes): Option<CatalogMeta> {
    if key in catalog then Some(catalog[key]) else None
  }

  function SpansFor(records: seq<Record>, start: nat, end: nat): seq<Span> {
    if end <= start then [] else Cut(RecordStretches(records), start, end)
  }

  /** A file's record: spans of its whole block, header included, and no length of their own. */
  function BootRecord(records: seq<Record>, pos: FilePos, meta: Option<CatalogMeta>): FileRecord {
    var size := if meta.Some? then meta.value.size else 0;
    FileRecord(if size == 0 && pos.size > 0 then pos.size else size, 0, if meta.Some? then meta.value.mtime else 0, [],
               SpansFor(records, pos.entryStart, pos.entryEnd))
  }

  function BootRecords(records: seq<Record>, index: map<bytes, FilePos>, catalog: map<bytes, CatalogMeta>)
    : map<bytes, FileRecord>
  {
    map k <- index | index[k].entryEnd > index[k].entryStart :: BootRecord(records, index[k], MetaOf(catalog, k))
  }

  /**
   The spans of such a record are 16 bytes longer than the payload, so the reuse test lets it through
   exactly if the catalog claims that much for the file.
   */
  lemma BootstrappedCovers(records: seq<Record>, chunks: seq<bytes>, pos: FilePos, meta: Option<CatalogMeta>)
    requires Describes(records, chunks)
    requires pos.entryEnd == pos.entryStart + 16 + pos.size <= |Flatten(chunks)|
    ensures CoversFile(BootRecord(records, pos, meta)) <==> meta.Some? && meta.value.size == 16 + pos.size
  {
    hide Cut, RecordStretches, Describes, Flatten;
    RangeIsTiled(records, chunks, pos.entryStart, pos.entryEnd);
  }

  /** A record that is refused for its spans stays refused when it is refreshed from the disk. */
  lemma {:induction false} RefreshedStaysRefused(files: map<bytes, FileRecord>, walk: seq<Walked>)
    requires forall k <- files :: !CoversFile(files[k])
    ensures forall k <- EnrichAll(files, walk) :: !CoversFile(EnrichAll(files, walk)[k])
    decreases |walk|
  {
    hide MtimeMatches, TotalLen;
    if walk != [] {
      var w := walk[0];
      RefreshedStaysRefused(
        if w.key in files then files[w.key := Enriched(files[w.key], w.size, w.mtime)] else files, walk[1..]);
    }
  }

  /** The catalog agrees with the archive on how long the files are. */
  predicate SizesAgree(index: map<bytes, FilePos>, catalog: map<bytes, CatalogMeta>) {
    forall k <- index :: k in catalog ==> catalog[k].size == index[k].size
  }

  /** All positions are those of whole blocks inside the stream. */
  predicate InStream(index: map<bytes, FilePos>, length: nat) {
    forall k <- index :: index[k].entryEnd == index[k].entryStart + 16 + index[k].size <= length
  }

  /** Nothing that was bootstrapped from an agreeing catalog is ever replayed, refreshed or not. */
  lemma BootstrappedIsRefused(records: seq<Record>, chunks: seq<bytes>, index: map<bytes, FilePos>,
                              catalog: map<bytes, CatalogMeta>, walk: seq<Walked>, key: bytes, st: Stat)
    requires Describes(records, chunks) && InStream(index, |Flatten(chunks)|) && SizesAgree(index, catalog)
    ensures CanReuse(EnrichAll(BootRecords(records, index, catalog), walk), key, st) == None
    ensures forall k <- EnrichAll(BootRecords(records, index, catalog), walk) ::
      !CoversFile(EnrichAll(BootRecords(records, index, catalog), walk)[k])
  {
    hide BootRecord, CoversFile, Flatten, Describes, EnrichAll;
    var files := BootRecords(records, index, catalog);
    forall k <- files
      ensures !CoversFile(files[k])
    {
      BootstrappedCovers(records, chunks, index[k], MetaOf(catalog, k));
    }
    RefreshedStaysRefused(files, walk);
    var after := EnrichAll(files, walk);
    if key in after { AcceptedCovers(after[key], st); }
  }

  lemma AcceptedCovers(rec: FileRecord, st: Stat)
    ensures Accepts(rec, st) ==> CoversFile(rec)
  {
  }

  /** A file listed in an archive has its block inside the stream. */
  lemma IndexIsInStream(a: Archive)
    ensures InStream(FoldIndex(map[], ArchiveFiles(a)), |EncodeArchive(a)|)
  {
    hide EncodeArchive, ArchiveFiles, FoldIndex, Block;
    var index := FoldIndex(map[], ArchiveFiles(a));
    forall k <- index
      ensures index[k].entryEnd == index[k].entryStart + 16 + index[k].size <= |EncodeArchive(a)|
    {
      IndexedPosition(map[], ArchiveFiles(a), k);
      var f :| f in ArchiveFiles(a) && index[k] == f.pos;
      ArchiveFileIsWhereItSays(a, f);
      BlockLength(f.data);
    }
  }

  lemma BlockLength(data: bytes)
    ensures |Block(PAYLOAD, data)| == 16 + |data|
  {
  }

  // Reading the index out of the stream.

  /** A recorder never counts as finished and goes on recording. */
  lemma {:induction false} RecorderGoesOn(p: Parser)
    requires p.core.indexMode
    ensures var r := Drain(p); !r.Done? && (r.Quiet? || r.QuietTorn? ==> r.p.core.indexMode)
    decreases |p.carry|, Rank(p.core.walk)
  {
    hide Step;
    var o := Step(p);
    StepKeepsMode(p);
    if o.Moved? && Progress(p, o.p) {
      RecorderGoesOn(o.p);
    }
  }

  lemma RecorderGoesOnFeeding(p: Parser, chunk: bytes)
    requires p.core.indexMode
    ensures var r := Feed(p, chunk); !r.Done? && (r.Quiet? || r.QuietTorn? ==> r.p.core.indexMode)
  {
    hide Drain;
    RecorderGoesOn(Append(p, chunk));
  }

  /** What a recorder has written down when its feeds came to this. */
  function Recorded(r: Result): Option<map<bytes, FilePos>> {
    if r.Quiet? || r.QuietTorn? || r.Done? then Some(r.p.core.index) else None
  }

  lemma OneChunk(records: seq<Record>, chunks: seq<bytes>, i: nat)
    requires Describes(records, chunks) && i < |records|
    ensures records[i].offset == ChunkStart(records, i) + |chunks[i]|
    ensures chunks[i..] != [] && chunks[i..][0] == chunks[i] && chunks[i..][1..] == chunks[i + 1..]
  {
    hide Flatten;
    ChunkIsStretch(records, chunks, i);
    PrefixBytes(chunks, i);
  }

  /** The chunks are fetched and fed to a recorder, as far as they add up. */
  method ReadIndex(records: seq<Record>, store: map<Digest, bytes>) returns (index: Option<map<bytes, FilePos>>)
    ensures index.Some? ==> forall r <- records :: r.digest in store
    ensures (forall r <- records :: r.digest in store) && Describes(records, D.ChunksOf(records, store)) ==>
      index == Recorded(FeedAll(Parser(Recorder(), []), D.ChunksOf(records, store)))
  {
    hide Feed, Drain, Describes;
    var parser := new PS.PxarStreamParser([], true, false);
    ghost var start := parser.View();
    ghost var good := (forall r <- records :: r.digest in store) && Describes(records, D.ChunksOf(records, store));
    ghost var chunks := if good then D.ChunksOf(records, store) else [];
    var downloaded := 0;
    for i := 0 to |records|
      invariant fresh(parser) && parser.indexMode
      invariant forall r <- records[..i] :: r.digest in store
      invariant good ==> downloaded == if i == 0 then 0 else records[i - 1].offset
      invariant good ==> FeedAll(parser.View(), chunks[i..]) == FeedAll(start, chunks)
    {
      if good { OneChunk(records, chunks, i); }
      assert records[..i + 1] == records[..i] + [records[i]];
      if records[i].digest !in store { return None; }
      var chunk := store[records[i].digest];
      downloaded := downloaded + |chunk|;
      if downloaded != records[i].offset { return None; }
      RecorderGoesOnFeeding(parser.View(), chunk);
      ghost var before := parser.View();
      var fed := parser.FeedChunk(chunk);
      if !fed.Ok? { return None; }
    }
    assert records[..|records|] == records;
    return Some(parser.index);
  }

  /** One record for each file of the index. */
  method BuildRecords(records: seq<Record>, index: map<bytes, FilePos>, catalog: map<bytes, CatalogMeta>)
    returns (files: map<bytes, FileRecord>)
    requires D.Ascending(records)
    ensures files == BootRecords(records, index, catalog)
  {
    hide Cut;
    files := map[];
    var rest := index.Keys;
    while rest != {}
      invariant rest <= index.Keys
      invariant files == map k <- index | index[k].entryEnd > index[k].entryStart && k !in rest
                         :: BootRecord(records, index[k], MetaOf(catalog, k))
      decreases |rest|
    {
      var key :| key in rest;
      rest := rest - {key};
      var pos := index[key];
      if pos.entryEnd > pos.entryStart {
        var spans := ChunkSpansForRange(records, pos.entryStart, pos.entryEnd);
        var rec := FileRecord(0, 0, 0, [], spans);
        if key in catalog { rec := rec.(size := catalog[key].size, mtime := catalog[key].mtime); }
        if rec.size == 0 && pos.size > 0 { rec := rec.(size := pos.size); }
        files := files[key := rec];
      }
    }
  }
}
