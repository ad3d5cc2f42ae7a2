/** Histories of backups: runs, runs that break off, a cache rebuilt from the server, and restores. */
module BackupSite {
  import opened Bytes
  import opened Options
  import opened Paths
  import opened PxarFormat
  import opened PxarStreamSpec
  import opened PxarTrees
  import opened PxarIndexTheorem
  import opened ChunkLayout
  import opened ChunkStream
  import opened ChunkSpans
  import opened FI = FastIncremental
  import opened BackupSession
  import opened CacheBootstrap
  import opened PxarWriter
  import opened BackupRuns
  import D = Didx
  import V = ChunkViews

  /** A backup on the server: its chunk index leads to its stream, its file index is that of its archive. */
  ghost predicate Leads(records: seq<Record>, index: map<bytes, FilePos>, a: Archive, stream: bytes,
                        store: map<Digest, bytes>)
  {
    && WellFormedArchive(a) && |EncodeArchive(a)| <= MAX_INT && stream != []
    && Restorable(records, store, stream) && index == FoldIndex(map[], ArchiveFiles(a))
  }

  ghost predicate AllLead(indexes: seq<seq<Record>>, positions: seq<map<bytes, FilePos>>, archives: seq<Archive>,
                          streams: seq<bytes>, store: map<Digest, bytes>)
  {
    && |indexes| == |positions| == |archives| == |streams|
    && forall j | 0 <= j < |indexes| :: Leads(indexes[j], positions[j], archives[j], streams[j], store)
  }

  lemma StillLead(indexes: seq<seq<Record>>, positions: seq<map<bytes, FilePos>>, archives: seq<Archive>,
                  streams: seq<bytes>, small: map<Digest, bytes>, big: map<Digest, bytes>)
    requires AllLead(indexes, positions, archives, streams, small) && Extends(small, big)
    ensures AllLead(indexes, positions, archives, streams, big)
  {
    hide Restorable, EncodeArchive, WellFormedArchive, ArchiveFiles, Extends;
    forall j | 0 <= j < |indexes|
      ensures Leads(indexes[j], positions[j], archives[j], streams[j], big)
    {
      RestorableStays(indexes[j], small, big, streams[j]);
    }
  }

  lemma OneMore(indexes: seq<seq<Record>>, positions: seq<map<bytes, FilePos>>, archives: seq<Archive>,
                streams: seq<bytes>, small: map<Digest, bytes>, big: map<Digest, bytes>,
                records: seq<Record>, index: map<bytes, FilePos>, a: Archive, stream: bytes)
    requires AllLead(indexes, positions, archives, streams, small) && Extends(small, big)
    requires Leads(records, index, a, stream, big)
    ensures AllLead(indexes + [records], positions + [index], archives + [a], streams + [stream], big)
    ensures |indexes| == |positions| == |archives| == |streams|
  {
    hide Leads, Extends;
    StillLead(indexes, positions, archives, streams, small, big);
  }

  lemma RestorableJoins(records: seq<Record>, store: map<Digest, bytes>, stream: bytes)
    requires Restorable(records, store, stream) && stream != []
    ensures D.Ascending(records) && D.Joinable(records, store) && records[|records| - 1].offset > 0
    ensures Flatten(D.ChunksOf(records, store)) == stream
  {
    hide Flatten;
    var chunks := D.ChunksOf(records, store);
    if records == [] { EmptyPieces(chunks); }
    EndOfLast(records, chunks);
    D.StrictlyAscending(records, chunks);
  }

  // Bootstrapping.

  predicate HasSpans(files: map<bytes, FileRecord>) {
    exists k <- files :: files[k].spans != []
  }

  /** What a recorder makes of the chunks of a backup. */
  function BootIndex(records: seq<Record>, store: map<Digest, bytes>): Option<map<bytes, FilePos>>
    requires forall r <- records :: r.digest in store
  {
    Recorded(FeedAll(Parser(Recorder(), []), D.ChunksOf(records, store)))
  }

  /** No chunk ends inside the headers of a file. */
  ghost predicate CutsWell(records: seq<Record>, a: Archive) {
    forall r <- records :: !CutsAFile(ArchiveFiles(a), r.offset)
  }

  /** From a backup that is its archive the recorder gets the file index exactly if the chunks cut well. */
  lemma ReadsOwnIndex(records: seq<Record>, index: map<bytes, FilePos>, a: Archive, stream: bytes,
                      store: map<Digest, bytes>)
    requires Leads(records, index, a, stream, store) && stream == EncodeArchive(a)
    ensures BootIndex(records, store) == if CutsWell(records, a) then Some(index) else None
  {
    hide Flatten, EncodeArchive, WellFormedArchive, ArchiveFiles, CutsAFile, FeedAll, FoldIndex;
    var chunks := D.ChunksOf(records, store);
    RecorderIsExact(a, chunks);
    CutsAreOffsets(records, chunks, a);
  }

  lemma CutsAreOffsets(records: seq<Record>, chunks: seq<bytes>, a: Archive)
    requires Describes(records, chunks)
    ensures CutsWell(records, a) <==>
      !exists j :: 0 < j <= |chunks| && CutsAFile(ArchiveFiles(a), |Flatten(chunks[..j])|)
  {
    hide Flatten, ArchiveFiles, CutsAFile;
    forall j | 0 < j <= |chunks|
      ensures |Flatten(chunks[..j])| == records[j - 1].offset && records[j - 1] in records
    {
      assert chunks[..j - 1 + 1] == chunks[..j];
    }
    forall r <- records
      ensures exists j :: 0 < j <= |chunks| && |Flatten(chunks[..j])| == r.offset
    {
      var i :| 0 <= i < |records| && records[i] == r;
      assert |Flatten(chunks[..i + 1])| == r.offset;
    }
  }

  /** Whatever stands between these positions of the stream is what such records would replay. */
  function StretchOf(stream: bytes, pos: FilePos): bytes {
    if pos.entryEnd <= pos.entryStart then [] else Within(stream, 0, pos.entryStart, pos.entryEnd)
  }

  /** Bootstrapped records replay what they span, from whatever index they were made. */
  lemma BootIsSound(records: seq<Record>, store: map<Digest, bytes>, stream: bytes, index: map<bytes, FilePos>,
                    catalog: map<bytes, CatalogMeta>)
    requires Restorable(records, store, stream)
    ensures Sound(BootRecords(records, index, catalog), map k <- index :: StretchOf(stream, index[k]), store)
  {
    hide Flatten, Cut, TotalLen, Contents, Laid, Within;
    var files, origin := BootRecords(records, index, catalog), map k <- index :: StretchOf(stream, index[k]);
    forall k <- files
      ensures k in origin && (Replayable(files[k]) ==> SpansGive(files[k].spans, store, origin[k]))
    {
      if Replayable(files[k]) { BootGives(records, store, stream, index[k]); }
    }
  }

  lemma BootGives(records: seq<Record>, store: map<Digest, bytes>, stream: bytes, pos: FilePos)
    requires Restorable(records, store, stream) && pos.entryEnd > pos.entryStart
    requires SpansReusable(SpansFor(records, pos.entryStart, pos.entryEnd))
    ensures SpansGive(SpansFor(records, pos.entryStart, pos.entryEnd), store, StretchOf(stream, pos))
  {
    hide Flatten, Cut, TotalLen, Contents, Laid, Within;
    var chunks := D.ChunksOf(records, store);
    StretchesAreLaid(records, chunks, 0);
    assert RecordStretches(records)[0..] == RecordStretches(records) && chunks[0..] == chunks;
    assert Flatten(chunks[..0]) == [] by { assert chunks[..0] == []; EmptyPieces(chunks[..0]); }
    WholeSpansHold(RecordStretches(records), chunks, 0, pos.entryStart, pos.entryEnd, store);
  }

  /** Built from a backup that is its archive, and a catalog that agrees with it, no record will ever be replayed. */
  lemma LatestIsRefused(records: seq<Record>, index: map<bytes, FilePos>, a: Archive, stream: bytes,
                        store: map<Digest, bytes>, catalog: map<bytes, CatalogMeta>, walk: seq<Walked>)
    requires Leads(records, index, a, stream, store) && stream == EncodeArchive(a) && SizesAgree(index, catalog)
    ensures var after := EnrichAll(BootRecords(records, index, catalog), walk);
      && (forall k <- after :: !CoversFile(after[k]))
      && forall key, st: Stat :: CanReuse(after, key, st) == None
  {
    hide Flatten, EncodeArchive, WellFormedArchive, ArchiveFiles, FoldIndex, BootRecord, CoversFile, CanReuse,
         Describes, SizesAgree, EnrichAll;
    IndexIsInStream(a);
    var chunks := D.ChunksOf(records, store);
    forall key, st: Stat
      ensures CanReuse(EnrichAll(BootRecords(records, index, catalog), walk), key, st) == None
    {
      BootstrappedIsRefused(records, chunks, index, catalog, walk, key, st);
    }
    BootstrappedIsRefused(records, chunks, index, catalog, walk, [], Stat(0, 0, []));
  }

  /** From a backup that is its archive every file of the index gets a record. */
  lemma EveryFileHasARecord(records: seq<Record>, index: map<bytes, FilePos>, a: Archive,
                            catalog: map<bytes, CatalogMeta>)
    requires index == FoldIndex(map[], ArchiveFiles(a))
    ensures BootRecords(records, index, catalog).Keys == index.Keys
  {
    hide FoldIndex, ArchiveFiles, EncodeArchive, BootRecord;
    IndexIsInStream(a);
  }

  /** The cache is without spans, and the latest backup has files, not too many chunks, and chunks that cut well. */
  ghost predicate CanBootstrap(disk: map<bytes, FileRecord>, records: seq<Record>, index: map<bytes, FilePos>,
                               a: Archive)
  {
    !HasSpans(disk) && |records| <= MAX_BOOTSTRAP_CHUNKS && CutsWell(records, a) && index != map[]
  }

  lemma LeadsFacts(records: seq<Record>, index: map<bytes, FilePos>, a: Archive, stream: bytes,
                   store: map<Digest, bytes>)
    requires Leads(records, index, a, stream, store)
    ensures Restorable(records, store, stream) && (forall r <- records :: r.digest in store)
    ensures D.Ascending(records) && Describes(records, D.ChunksOf(records, store))
  {
    hide Flatten, Describes, EncodeArchive, WellFormedArchive, ArchiveFiles, FoldIndex, D.Ascending, D.Joinable;
    RestorableJoins(records, store, stream);
  }

  lemma BootIndexIs(records: seq<Record>, store: map<Digest, bytes>)
    requires forall r <- records :: r.digest in store
    ensures BootIndex(records, store) == Recorded(FeedAll(Parser(Recorder(), []), D.ChunksOf(records, store)))
  {
  }

  /** What bootstrapping from a backup that is its archive comes to. */
  lemma WholeBoots(records: seq<Record>, index: map<bytes, FilePos>, a: Archive, stream: bytes,
                   store: map<Digest, bytes>, catalog: map<bytes, CatalogMeta>, walk: seq<Walked>)
    requires Leads(records, index, a, stream, store) && stream == EncodeArchive(a)
    ensures BootIndex(records, store) == if CutsWell(records, a) then Some(index) else None
    ensures BootRecords(records, index, catalog).Keys == index.Keys
    ensures var after := EnrichAll(BootRecords(records, index, catalog), walk);
      SizesAgree(index, catalog) ==>
        (forall k <- after :: !CoversFile(after[k])) && forall key, st: Stat :: CanReuse(after, key, st) == None
  {
    hide EncodeArchive, WellFormedArchive, ArchiveFiles, FoldIndex, BootRecords, BootIndex, CoversFile, CanReuse,
         Restorable, SizesAgree, EnrichAll, CutsWell;
    ReadsOwnIndex(records, index, a, stream, store);
    EveryFileHasARecord(records, index, a, catalog);
    if SizesAgree(index, catalog) { LatestIsRefused(records, index, a, stream, store, catalog, walk); }
  }

  /** The chunks of a backup are read for an index, and records made from it and refreshed. */
  method Rebuild(records: seq<Record>, store: map<Digest, bytes>, catalog: map<bytes, CatalogMeta>, walk: seq<Walked>,
                 ghost stream: bytes)
    returns (files: Option<map<bytes, FileRecord>>, ghost made: map<bytes, bytes>)
    requires Restorable(records, store, stream) && D.Ascending(records)
    ensures files.Some? <==> |records| <= MAX_BOOTSTRAP_CHUNKS && BootIndex(records, store).Some?
                             && BootRecords(records, BootIndex(records, store).value, catalog) != map[]
    ensures files.Some? ==>
      && files.value == EnrichAll(BootRecords(records, BootIndex(records, store).value, catalog), walk)
      && Sound(files.value, made, store)
  {
    hide Sound, BootRecords, Flatten, BootIndex, FeedAll, Recorder, EnrichAll, D.Ascending, Describes,
         StretchOf, Recorded;
    made := map[];
    if |records| > MAX_BOOTSTRAP_CHUNKS { return None, made; }
    BootIndexIs(records, store);
    var index := ReadIndex(records, store);
    if index.None? { return None, made; }
    var built := BuildRecords(records, index.value, catalog);
    if |built| == 0 { return None, made; }
    made := map k <- index.value :: StretchOf(stream, index.value[k]);
    BootIsSound(records, store, stream, index.value, catalog);
    EnrichKeepsSound(built, walk, made, store);
    var refreshed, _ := EnrichIndexFromDisk(built, walk);
    return Some(refreshed), made;
  }

  lemma RefusedIsHarmless(content: Oracle, files: map<bytes, FileRecord>, origin: map<bytes, bytes>)
    requires forall k <- files :: !CoversFile(files[k])
    ensures Remembers(content, files, origin)
  {
  }

  /** What a run may replay from the cache file. */
  function Usable(disk: map<bytes, FileRecord>, forceFull: bool): map<bytes, FileRecord> {
    if !forceFull && HasSpans(disk) then disk else map[]
  }

  // Restoring by the file index.

  /** The data of a file that has one of the path's keys. */
  predicate IsDataOf(files: seq<Located>, path: bytes, data: bytes) {
    exists f <- files :: SharesKey(path, f.path) && f.data == data
  }

  /** The wanted paths some file has a key of, or those none has. */
  function Sifted(files: seq<Located>, wanted: seq<bytes>, listed: bool): seq<bytes> {
    if wanted == [] then [] else
      (if IsListed(files, wanted[0]) == listed then [wanted[0]] else []) + Sifted(files, wanted[1..], listed)
  }

  lemma IsData(files: seq<Located>, path: bytes, f: Located)
    requires f in files && SharesKey(path, f.path)
    ensures IsDataOf(files, path, f.data)
  {
  }

  lemma {:induction false} SiftLast(files: seq<Located>, wanted: seq<bytes>, w: bytes, listed: bool)
    ensures Sifted(files, wanted + [w], listed)
         == Sifted(files, wanted, listed) + if IsListed(files, w) == listed then [w] else []
    decreases |wanted|
  {
    hide IsListed;
    if wanted == [] {
      assert wanted + [w] == [w] && [w][1..] == [];
    } else {
      assert (wanted + [w])[1..] == wanted[1..] + [w];
      SiftLast(files, wanted[1..], w, listed);
    }
  }

  /** Where no two files share a key, a file's own path leads to its own data. */
  lemma OwnPathOwnData(files: seq<Located>, f: Located, data: bytes)
    requires DistinctKeys(files) && f in files
    ensures IsListed(files, f.path)
    ensures IsDataOf(files, f.path, data) <==> data == f.data
  {
    hide TargetPathKeys;
    var keys := TargetPathKeys(f.path);
    assert keys[0] in keys;
    if IsDataOf(files, f.path, data) {
      var g :| g in files && SharesKey(f.path, g.path) && g.data == data;
      var i, j :| 0 <= i < |files| && 0 <= j < |files| && files[i] == f && files[j] == g;
      assert SharesKey(g.path, f.path);
    }
  }

  lemma HasSpansHasFiles(files: map<bytes, FileRecord>)
    ensures HasSpans(files) ==> files != map[]
    ensures !HasSpans(map[])
  {
  }

  /** What a run has written is an archive of good form, and its stream is not empty. */
  lemma RunLeads(hashOf: bytes -> nat, cached: map<bytes, FileRecord>, origin: map<bytes, bytes>, src: Source)
    requires NamesGiven(src.top) && |EncodeArchive(ArchiveOf(hashOf, src))| <= MAX_INT
    ensures var a := WrittenArchive(hashOf, cached, src); WellFormedArchive(a) && |EncodeArchive(a)| <= MAX_INT
    ensures EmittedArchive(hashOf, cached, origin, src) != []
  {
    hide EncodeArchive, NamesGiven, Written, TableWritten, ListBytes, Advance, Count, IsDirMode, WellFormed;
    ModesAreRight();
    ArchiveLength(hashOf, cached, src);
    ArchiveLength(hashOf, map[], src);
    WrittenIsWellFormed(hashOf, cached, src.top);
  }

  /** When a stored stream is its archive, when that is the archive of the source, and how much longer it is else. */
  ghost predicate IsJudged(hashOf: bytes -> nat, cached: map<bytes, FileRecord>, src: Source, a: Archive, stream: bytes)
  {
    && (stream == EncodeArchive(a) <==> OnlyPayloads(cached, src.top))
    && (stream == EncodeArchive(ArchiveOf(hashOf, src)) <==> NothingReplayed(cached, src.top))
    && |stream| == |EncodeArchive(ArchiveOf(hashOf, src))| + Surplus(cached, src.top)
  }

  /** A backed-up source over its lifetime: the server's chunks and indexes, and the local cache file. */
  class Site {
    const hash: Hash
    const hashOf: bytes -> nat
    ghost const content: Oracle
    var store: map<Digest, bytes>
    /** The chunk index of each backup, and the file index recorded along with it. */
    var indexes: seq<seq<Record>>
    var positions: seq<map<bytes, FilePos>>
    var disk: map<bytes, FileRecord>
    /** The bytes each cached record was made from. */
    ghost var origin: map<bytes, bytes>
    /** Of each backup, the archive the recorder followed, and the stream that was stored. */
    ghost var archives: seq<Archive>
    ghost var streams: seq<bytes>

    ghost predicate Valid()
      reads this
    {
      && Collisionless(hash) && Honest(hash, store) && Sound(disk, origin, store)
      && AllLead(indexes, positions, archives, streams, store)
    }

    /** The cached records were made from what their stat stands for. */
    ghost predicate Trusted()
      reads this
    {
      Remembers(content, disk, origin)
    }

    /** The stored stream is the archive its file index is of. */
    ghost predicate Whole(j: nat)
      requires j < |streams| == |archives|
      reads `streams, `archives
    {
      streams[j] == EncodeArchive(archives[j])
    }

    constructor (hash: Hash, hashOf: bytes -> nat, store: map<Digest, bytes>, disk: map<bytes, FileRecord>,
                 ghost content: Oracle, ghost origin: map<bytes, bytes>)
      requires Collisionless(hash) && Honest(hash, store) && Sound(disk, origin, store)
      ensures Valid() && streams == [] && archives == [] && this.disk == disk && this.content == content
      ensures this.hashOf == hashOf && this.origin == origin
    {
      this.hash, this.hashOf, this.store, this.disk := hash, hashOf, store, disk;
      this.content, this.origin := content, origin;
      indexes, positions, archives, streams := [], [], [], [];
    }

    /** The cache is refreshed from the disk, where no file claims the mtime 0. */
    method Refresh(walk: seq<Walked>)
      requires Valid() && forall w <- walk :: w.mtime != 0
      modifies `disk
      ensures Valid() && disk == EnrichAll(old(disk), walk) && (old(Trusted()) ==> Trusted())
    {
      hide Collisionless, Honest, Sound, Remembers, AllLead;
      EnrichKeepsSound(disk, walk, origin, store);
      if Trusted() { EnrichKeepsMemory(content, disk, origin, walk); }
      var files, _ := EnrichIndexFromDisk(disk, walk);
      disk := files;
    }

    /**
     A cache without spans is rebuilt from the latest backup. If that backup is its archive, this goes through exactly
     if it has files, not too many chunks, and none that ends inside a file's headers; if the catalog agrees with it,
     nothing of such a cache is ever replayed.
     */
    method Bootstrap(catalog: map<bytes, CatalogMeta>, walk: seq<Walked>) returns (done: bool)
      requires Valid()
      modifies `disk, `origin
      ensures Valid() && (!done ==> disk == old(disk) && origin == old(origin))
      ensures done ==> indexes != [] && !HasSpans(old(disk))
      ensures indexes != [] && Whole(|indexes| - 1) ==>
        (done <==> CanBootstrap(old(disk), indexes[|indexes| - 1], positions[|indexes| - 1], archives[|indexes| - 1]))
      ensures done && Whole(|indexes| - 1) ==> disk.Keys == positions[|indexes| - 1].Keys
      ensures done && Whole(|indexes| - 1) && SizesAgree(positions[|indexes| - 1], catalog) ==>
        Trusted() && forall key, st: Stat :: CanReuse(disk, key, st) == None
    {
      hide Collisionless, Honest, Sound, Remembers, Leads, CutsWell, SizesAgree, CanReuse, CoversFile, EnrichAll, Whole,
           BootRecords, Describes, HasSpans, BootIndex, Restorable, D.Ascending;
      if |indexes| == 0 || HasSpans(disk) { return false; }
      var last := |indexes| - 1;
      LeadsFacts(indexes[last], positions[last], archives[last], streams[last], store);
      if Whole(last) { LastIsWhole(last, catalog, walk); }
      var files, made := Rebuild(indexes[last], store, catalog, walk, streams[last]);
      if files.None? { return false; }
      if Whole(last) && SizesAgree(positions[last], catalog) {
        RefusedIsHarmless(content, files.value, made);
      }
      disk, origin := files.value, made;
      return true;
    }

    /** The run of a backup, before anything of it is kept. */
    method Run(src: Source, forceFull: bool) returns (s: Session)
      requires Valid() && NamesGiven(src.top) && Truthful(content, src.top)
      requires |EncodeArchive(ArchiveOf(hashOf, src))| <= MAX_INT
      ensures fresh(s) && Honest(hash, s.chunk.store) && Extends(store, s.chunk.store)
      ensures Sound(if forceFull then map[] else disk, origin, s.chunk.store)
      ensures Sound(s.fi.live, s.fi.liveOrigin, s.chunk.store)
      ensures Trusted() ==> Remembers(content, s.fi.live, s.fi.liveOrigin)
      ensures var cached := Usable(disk, forceFull);
        AllLead(indexes + [s.chunk.csum], positions + [s.recorder.index],
                archives + [WrittenArchive(hashOf, cached, src)],
                streams + [EmittedArchive(hashOf, cached, origin, src)], s.chunk.store)
      ensures |indexes| == |positions| == |archives| == |streams|
    {
      hide Collisionless, Honest, Sound, Remembers, Restorable, EncodeArchive, Truthful, NamesGiven, AllLead, ArchiveOf,
           WrittenArchive, EmittedArchive, ArchiveFiles, FoldIndex, HasSpans, WellFormedArchive, Extends;
      ghost var cached := Usable(disk, forceFull);
      NoCache(content, origin, store);
      var files := if forceFull then map[] else disk;
      HasSpansHasFiles(files);
      s := OneRun(hash, hashOf, store, files, origin, HasSpans(files), forceFull, src, content);
      RunLeads(hashOf, cached, origin, src);
      OneMore(indexes, positions, archives, streams, store, s.chunk.store, s.chunk.csum, s.recorder.index,
              WrittenArchive(hashOf, cached, src), EmittedArchive(hashOf, cached, origin, src));
      SoundInLargerStore(files, origin, store, s.chunk.store);
    }

    /** The cache file after a run, whether or not it could be written. */
    method Keep(fi: FastIncremental, files: map<bytes, FileRecord>, saves: bool, ghost grown: map<Digest, bytes>)
      requires Sound(files, origin, grown) && Sound(fi.live, fi.liveOrigin, grown)
      modifies `disk, `origin
      ensures disk == if saves && fi.live != map[] then fi.live else files
      ensures Sound(disk, origin, grown)
      ensures Remembers(content, files, old(origin)) && Remembers(content, fi.live, fi.liveOrigin) ==> Trusted()
    {
      hide Sound, Remembers;
      var saved, _ := fi.Save(files, false);
      if saves && fi.live != map[] { origin := fi.liveOrigin; }
      disk := if saves then saved else files;
    }

    /** One backup run, fast or forced full; the cache file may fail to be written. */
    method Backup(src: Source, forceFull: bool, saves: bool)
      requires Valid() && NamesGiven(src.top) && Truthful(content, src.top)
      requires |EncodeArchive(ArchiveOf(hashOf, src))| <= MAX_INT
      modifies this
      ensures Valid() && (old(Trusted()) ==> Trusted())
      ensures var cached := Usable(old(disk), forceFull);
        && archives == old(archives) + [WrittenArchive(hashOf, cached, src)]
        && streams == old(streams) + [EmittedArchive(hashOf, cached, old(origin), src)]
      ensures |indexes| == |positions| == |old(indexes)| + 1
      ensures indexes[..|old(indexes)|] == old(indexes) && positions[..|old(indexes)|] == old(positions)
      ensures old(Trusted()) ==>
        IsJudged(hashOf, Usable(old(disk), forceFull), src, archives[|old(streams)|], streams[|old(streams)|])
    {
      hide Collisionless, Honest, Sound, Remembers, EncodeArchive, Truthful, NamesGiven, AllLead, ArchiveOf,
           WrittenArchive, EmittedArchive, ArchiveFiles, FoldIndex, IsJudged, Usable;
      ghost var cached, trusted := Usable(disk, forceFull), Trusted();
      ghost var a, stream := WrittenArchive(hashOf, cached, src), EmittedArchive(hashOf, cached, origin, src);
      NoCache(content, origin, store);
      if trusted { JudgeRun(content, disk, forceFull, origin, src); }
      var s := Run(src, forceFull);
      Keep(s.fi, if forceFull then map[] else disk, saves, s.chunk.store);
      store, indexes, positions := s.chunk.store, indexes + [s.chunk.csum], positions + [s.recorder.index];
      archives, streams := archives + [a], streams + [stream];
    }

    lemma JudgeRun(content: Oracle, disk: map<bytes, FileRecord>, forceFull: bool, origin: map<bytes, bytes>,
                   src: Source)
      requires Remembers(content, disk, origin) && Truthful(content, src.top)
      requires |EncodeArchive(ArchiveOf(hashOf, src))| <= MAX_INT
      ensures var cached := Usable(disk, forceFull);
        IsJudged(hashOf, cached, src, WrittenArchive(hashOf, cached, src), EmittedArchive(hashOf, cached, origin, src))
    {
      hide EncodeArchive, Truthful, ArchiveOf, WrittenArchive, EmittedArchive, OnlyPayloads, NothingReplayed, Surplus;
      var cached := Usable(disk, forceFull);
      StreamIsWritten(hashOf, content, cached, origin, src);
      StreamIsArchive(hashOf, content, cached, origin, src);
    }

    /** A run that breaks off: chunks it has stored remain, and a forced full run has dropped the cache before. */
    method Abort(forceFull: bool, grown: map<Digest, bytes>)
      requires Valid() && Honest(hash, grown) && Extends(store, grown)
      modifies `store, `disk
      ensures Valid() && store == grown && disk == if forceFull then map[] else old(disk)
      ensures old(Trusted()) ==> Trusted()
    {
      hide Collisionless, Honest, Sound, Remembers, AllLead, Extends;
      NoCache(content, origin, grown);
      StillLead(indexes, positions, archives, streams, store, grown);
      SoundInLargerStore(disk, origin, store, grown);
      store := grown;
      if forceFull { disk := map[]; }
    }

    /** Any earlier backup, joined from its index. */
    method Restore(j: nat) returns (r: D.Result<bytes>)
      requires Valid() && j < |streams|
      ensures r == D.Ok(streams[j])
    {
      hide Flatten, Collisionless, Honest, Sound, EncodeArchive, WellFormedArchive, ArchiveFiles;
      assert Leads(indexes[j], positions[j], archives[j], streams[j], store);
      RestorableJoins(indexes[j], store, streams[j]);
      r := D.ReassembleFromRecords(indexes[j], store);
    }

    /**
     Files of any earlier backup by their paths, through its file index. If the backup is its archive, each comes back
     as the data of a file of that path.
     */
    method RestoreFiles(j: nat, wanted: seq<bytes>) returns (r: V.Result<seq<bytes>>, missing: seq<bytes>)
      requires Valid() && j < |streams|
      ensures missing == Sifted(ArchiveFiles(archives[j]), wanted, false)
      ensures var found := Sifted(ArchiveFiles(archives[j]), wanted, true);
        Whole(j) ==>
          && r.Ok? && |r.value| == |found|
          && forall k | 0 <= k < |found| :: IsDataOf(ArchiveFiles(archives[j]), found[k], r.value[k])
    {
      hide Collisionless, Honest, Sound, EncodeArchive, WellFormedArchive, ArchiveFiles, Flatten, Describes,
           TargetPathKeys, FoldIndex, V.AllHold, IsListed, IsDataOf;
      ghost var a := archives[j];
      ghost var files := ArchiveFiles(a);
      assert Leads(indexes[j], positions[j], a, streams[j], store);
      var ordered: seq<FilePos> := [];
      missing := [];
      ghost var picks: seq<Located>, datas: seq<bytes> := [], [];
      assert wanted[..0] == [];
      for i := 0 to |wanted|
        invariant missing == Sifted(files, wanted[..i], false)
        invariant |ordered| == |picks| == |datas| == |Sifted(files, wanted[..i], true)|
        invariant forall k | 0 <= k < |picks| ::
          picks[k] in files && ordered[k] == picks[k].pos && datas[k] == picks[k].data
          && IsDataOf(files, Sifted(files, wanted[..i], true)[k], datas[k])
      {
        var (pos, found) := IndexLookup(positions[j], TargetPathKeys(wanted[i]));
        LookupIsAFile(files, wanted[i]);
        assert wanted[..i + 1] == wanted[..i] + [wanted[i]];
        SiftLast(files, wanted[..i], wanted[i], true);
        SiftLast(files, wanted[..i], wanted[i], false);
        if found {
          ghost var f :| f in files && SharesKey(wanted[i], f.path) && pos == f.pos;
          IsData(files, wanted[i], f);
          ordered, picks, datas := ordered + [pos], picks + [f], datas + [f.data];
        } else {
          missing := missing + [wanted[i]];
        }
      }
      assert wanted[..|wanted|] == wanted;
      V.ListedPositionsHold(a, picks, ordered, datas);
      r := V.RestoreIndexed(indexes[j], store, ordered, D.ChunksOf(indexes[j], store), datas);
    }

    lemma LastIsWhole(last: nat, catalog: map<bytes, CatalogMeta>, walk: seq<Walked>)
      requires Valid() && last < |indexes| && Whole(last)
      ensures forall r <- indexes[last] :: r.digest in store
      ensures var index := BootIndex(indexes[last], store);
        && (index.Some? <==> CutsWell(indexes[last], archives[last]))
        && (index.Some? ==> index.value == positions[last])
      ensures BootRecords(indexes[last], positions[last], catalog).Keys == positions[last].Keys
      ensures var after := EnrichAll(BootRecords(indexes[last], positions[last], catalog), walk);
        SizesAgree(positions[last], catalog) ==>
          (forall k <- after :: !CoversFile(after[k])) && forall key, st: Stat :: CanReuse(after, key, st) == None
    {
      hide EncodeArchive, Leads, BootRecords, BootIndex, CoversFile, CanReuse, Restorable, SizesAgree, EnrichAll,
           CutsWell, Collisionless, Honest, Sound;
      LeadsFacts(indexes[last], positions[last], archives[last], streams[last], store);
      WholeBoots(indexes[last], positions[last], archives[last], streams[last], store, catalog, walk);
    }
  }
}
