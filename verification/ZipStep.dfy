/** What one run adds: the archive it makes, and what that does to snapshots and contents. */
module ZipStep {
  import opened Bytes
  import opened Options
  import opened Paths
  import opened FI = FastIncremental
  import opened ZipIndex
  import opened ZipRunner
  import opened ZipView
  import opened ZipMirror
  import opened ZipHistory

  const ZIP: bytes := [46, 122, 105, 112]
  const INCR_ZIP: bytes := [95, 105, 110, 99, 114, 46, 122, 105, 112]

  /** Host name, time stamp and ending. */
  function ZipName(kind: Kind, host: bytes, stamp: bytes): bytes {
    host + [95] + stamp + if kind == Full then ZIP else INCR_ZIP
  }

  lemma {:induction false} EndsIncremental(start: bytes)
    ensures IsIncrementalArchiveName(start + INCR_ZIP)
  {
    if start == [] {
      assert Lower(INCR_ZIP) == INCR_ZIP;
      assert [] + INCR_ZIP == INCR_ZIP;
    } else {
      assert (start + INCR_ZIP)[1..] == start[1..] + INCR_ZIP;
      EndsIncremental(start[1..]);
    }
  }

  predicate NeedsFull(idx: Index, remote: Remote, forceFull: bool) {
    forceFull || idx.baseFull == [] || idx.baseFull !in remote.zips
  }

  /** The archive comes out acceptable. */
  predicate GoodArchive(planned: seq<LocalFile>, skipAccess: bool, read: Reader, kind: Kind, walkSkipped: nat,
                        total: nat)
  {
    && CanZip(planned, skipAccess, read)
    && (Archived(planned, read) != [] || (kind == Incremental && planned == []))
    && !SignificantSkips(walkSkipped + |Unread(planned, read)|, total)
    && PlannedFilesArchived(planned, Listed(Zipped(planned, read)), Unread(planned, read))
  }

  method MakeArchive(planned: seq<LocalFile>, skipAccess: bool, read: Reader, kind: Kind, walkSkipped: nat, total: nat)
    returns (r: Option<seq<ZipEntry>>, archived: seq<LocalFile>)
    requires DistinctFiles(planned)
    ensures r.Some? <==> GoodArchive(planned, skipAccess, read, kind, walkSkipped, total)
    ensures r.Some? ==> r.value == Zipped(planned, read) && archived == Archived(planned, read)
  {
    hide Zipped, Archived, Unread, Listed, DistinctFiles, CanZip, Catalogs;
    archived := [];
    var zip, skipped := WriteZip(planned, skipAccess, read);
    if zip.None? { return None, archived; }
    var listed := ListZipEntries(zip.value);
    RestatedIsArchived(planned, read, 0);
    assert planned[0..] == planned;
    RestatedLength(planned, listed);
    if |listed| == 0 && !(|planned| == 0 && kind == Incremental) { return None, archived; }
    if SignificantSkips(walkSkipped + |skipped|, total) { return None, archived; }
    if !PlannedFilesArchived(planned, listed, skipped) { return None, archived; }
    if |listed| > 0 { archived := Restate(planned, listed); }
    return zip, archived;
  }

  lemma {:induction false} RestatedLength(planned: seq<LocalFile>, listed: seq<LocalFile>)
    ensures |Restated(planned, listed)| == |listed|
  {
    if listed != [] {
      RestatedLength(planned, listed[1..]);
    }
  }

  /** The index a run of this kind starts from, and what it puts into the archive. */
  function PlannedFor(idx: Index, kind: Kind, fs: seq<LocalFile>): seq<LocalFile> {
    if kind == Full then fs else Planned(idx.files, fs)
  }

  /** Paths the run keeps or finds: nothing among them differs in letter case only. */
  function Present(idx: Index, scan: Scan): set<bytes> {
    (set p <- idx.files | UnderUnverifiedDir(p, scan.unverified)) + Catalogs(scan.files)
  }

  function Put(r: Remote, z: bytes, entries: seq<ZipEntry>, m: Manifest, meta: map<bytes, Entry>): Remote {
    Remote(r.zips[z := entries], r.manifests[z := m], r.metas[z := meta])
  }

  lemma {:induction false} OneMoreName(archives: seq<ArchiveRecord>, a: ArchiveRecord)
    requires a.kind == Incremental
    ensures IncrementalNames(archives + [a]) == IncrementalNames(archives) + [a.name]
  {
    if archives != [] {
      assert (archives + [a])[1..] == archives[1..] + [a] && (archives + [a])[0] == archives[0];
      OneMoreName(archives[1..], a);
    } else {
      assert archives + [a] == [a] && IncrementalNames([a][1..]) == [];
    }
  }

  lemma NewChain(idx: Index, kind: Kind, z: bytes, scan: Scan, archived: seq<LocalFile>, deleted: seq<bytes>)
    ensures var after := Updated(idx, kind, z, scan.files, archived, scan.dirMeta, deleted);
      && after.baseFull == (if kind == Full then z else idx.baseFull) && LastArchiveName(after) == z
      && ChainOf(after) == if kind == Full then [z] else ChainOf(idx) + [z]
  {
    hide PutRecs, PutMetas, RefreshAcl;
    if kind == Full {
      assert IncrementalNames([ArchiveRecord(z, Full, [])][1..]) == [];
    } else {
      OneMoreName(idx.archives, ArchiveRecord(z, Incremental, deleted));
    }
  }

  /** The paths of the index after the run, and where the index says their content is. */
  lemma NewIndex(idx: Index, kind: Kind, z: bytes, scan: Scan, planned: seq<LocalFile>, read: Reader,
                 deleted: seq<bytes>)
    requires DistinctFiles(scan.files) && planned == PlannedFor(idx, kind, scan.files)
    requires CaseDistinct(Present(idx, scan))
    requires kind == Incremental ==> forall p ::
      p in deleted <==> IsDeleted(idx.files, Catalogs(scan.files), scan.unverified, p)
    ensures var archived := Archived(planned, read);
      var before := if kind == Full then map[] else idx.files - AsSet(deleted);
      var after := Updated(idx, kind, z, scan.files, archived, scan.dirMeta, deleted).files;
      && DistinctFiles(planned) && DistinctFiles(archived)
      && after.Keys == before.Keys + Catalogs(archived) && CaseDistinct(after.Keys)
      && (forall p <- after :: p !in Catalogs(archived) ==>
            p in before && after[p].(aclHash := []) == before[p].(aclHash := []))
      && (forall f <- archived :: after[f.catalog].(aclHash := []) == Rec(f.size, f.mtime, [], z))
  {
    hide Archived, Planned, Updated, UnderUnverifiedDir, Lower, Backslashed;
    PlannedAre(idx.files, scan.files);
    ArchivedAre(planned, read);
    UpdatedFiles(idx, kind, z, scan.files, Archived(planned, read), scan.dirMeta, deleted);
    var after := Updated(idx, kind, z, scan.files, Archived(planned, read), scan.dirMeta, deleted).files;
    forall p <- after.Keys
      ensures p in Present(idx, scan)
    {
      if p !in Catalogs(Archived(planned, read)) {
        assert p in idx.files && p !in deleted;
      }
    }
  }

  lemma ReplayOneMore(w: Remote, chain: seq<bytes>, z: bytes)
    requires (forall n <- chain :: n in w.zips) && z in w.zips
    ensures forall n <- chain + [z] :: n in w.zips
    ensures Replay(w, chain + [z]) == ApplyArchive(Replay(w, chain), w, z)
  {
    hide ApplyArchive;
    assert (chain + [z])[..|chain|] == chain;
  }

  lemma Blank()
    ensures Mirrors(View(map[], map[]), map[]) && CaseDistinct({})
    ensures DropAll(View(map[], map[]), []) == View(map[], map[])
  {
    assert LowerSet([]) == {};
  }

  lemma ListedArePlanned(planned: seq<LocalFile>, read: Reader)
    requires DistinctFiles(planned)
    ensures var fs := ListZipFiles(Zipped(planned, read)); var paths := Catalogs(Archived(planned, read));
      && (forall s <- fs :: s.path in paths && SafeZipEntryName(s.path))
      && (forall p <- paths | SafeZipEntryName(p) :: exists s <- fs :: s.path == p)
  {
    hide ListZipFiles, Zipped, Archived, SafeZipEntryName, Backslashed;
    ListedAre(planned, read);
  }

  /** The replayed chain with the new archive on top mirrors the new index. */
  lemma NextMirrors(idx: Index, kind: Kind, z: bytes, scan: Scan, planned: seq<LocalFile>, read: Reader,
                    deleted: seq<bytes>, v: View)
    requires DistinctFiles(scan.files) && planned == PlannedFor(idx, kind, scan.files)
    requires CaseDistinct(Present(idx, scan))
    requires kind == Incremental ==> forall p ::
      p in deleted <==> IsDeleted(idx.files, Catalogs(scan.files), scan.unverified, p)
    requires kind == Incremental ==> Mirrors(v, idx.files) && CaseDistinct(idx.files.Keys)
    ensures var fs := ListZipFiles(Zipped(planned, read));
      var after := Updated(idx, kind, z, scan.files, Archived(planned, read), scan.dirMeta, deleted).files;
      Mirrors(if kind == Full then EnterAll(View(map[], map[]), z, fs) else EnterAll(DropAll(v, deleted), z, fs), after)
  {
    hide Mirrors, Zipped, Archived, Planned, DistinctFiles, Updated, CaseDistinct, EnterAll, DropAll, ListZipFiles,
         UnderUnverifiedDir, SafeZipEntryName, Catalogs;
    var archived, fs := Archived(planned, read), ListZipFiles(Zipped(planned, read));
    var after := Updated(idx, kind, z, scan.files, archived, scan.dirMeta, deleted).files;
    NewIndex(idx, kind, z, scan, planned, read, deleted);
    assert forall p <- after :: p in Catalogs(archived) ==> after[p].archive == z;
    ListedArePlanned(planned, read);
    if kind == Full {
      Blank();
      var none: map<bytes, Rec> := map[];
      assert none.Keys == {} && none.Keys - AsSet([]) == {};
      MirrorsStep(View(map[], map[]), map[], [], z, fs, Catalogs(archived), after);
    } else {
      MirrorsStep(v, idx.files, deleted, z, fs, Catalogs(archived), after);
    }
  }

  /** The snapshot made by one more archive. */
  lemma NextSnapshot(idx: Index, kind: Kind, z: bytes, scan: Scan, planned: seq<LocalFile>, read: Reader,
                     deleted: seq<bytes>, w: Remote, w': Remote)
    requires DistinctFiles(scan.files) && planned == PlannedFor(idx, kind, scan.files)
    requires CaseDistinct(Present(idx, scan)) && z != [] && z !in w.zips
    requires kind == Incremental ==> SnapshotOf(idx, LastArchiveName(idx), w) && IsIncrementalArchiveName(z)
    requires kind == Incremental ==> forall p ::
      p in deleted <==> IsDeleted(idx.files, Catalogs(scan.files), scan.unverified, p)
    requires Within(w, w') && z in w'.zips && w'.zips[z] == Zipped(planned, read) && z in w'.manifests
    requires w'.manifests[z] == if kind == Full then Manifest(Full, [z], [])
                                else Manifest(Incremental, ChainOf(idx) + [z], deleted)
    ensures SnapshotOf(Updated(idx, kind, z, scan.files, Archived(planned, read), scan.dirMeta, deleted), z, w')
  {
    hide Replay, Mirrors, IsIncrementalArchiveName, Zipped, Archived, Planned, DistinctFiles, Updated, CaseDistinct,
         EnterAll, DropAll, ListZipFiles, IncrementalNames, Present, IsDeleted, PlannedFor;
    var archived := Archived(planned, read);
    NewIndex(idx, kind, z, scan, planned, read, deleted);
    NewChain(idx, kind, z, scan, archived, deleted);
    if kind == Incremental {
      NextMirrors(idx, kind, z, scan, planned, read, deleted, Replay(w, ChainOf(idx)));
      ReplayWithin(w, w', ChainOf(idx));
      ReplayOneMore(w', ChainOf(idx), z);
    } else {
      NextMirrors(idx, kind, z, scan, planned, read, deleted, View(map[], map[]));
      StartReplay(w', []);
      ReplayOneMore(w', [], z);
      assert [] + [z] == [z];
    }
  }

  /** The new archive holds the bytes its index entries stand for, and the old ones still do. */
  lemma NextHolds(content: Oracle, idx: Index, kind: Kind, z: bytes, scan: Scan, planned: seq<LocalFile>, read: Reader,
                  deleted: seq<bytes>, zips: map<bytes, seq<ZipEntry>>)
    requires DistinctFiles(scan.files) && planned == PlannedFor(idx, kind, scan.files)
    requires CaseDistinct(Present(idx, scan)) && Steady(content, scan.files, read) && z !in zips
    requires kind == Incremental ==> forall p ::
      p in deleted <==> IsDeleted(idx.files, Catalogs(scan.files), scan.unverified, p)
    requires kind == Incremental ==> Holds(content, zips, idx.files)
    ensures Holds(content, zips[z := Zipped(planned, read)],
                  Updated(idx, kind, z, scan.files, Archived(planned, read), scan.dirMeta, deleted).files)
  {
    hide Zipped, Archived, Planned, Updated, CaseDistinct, UnderUnverifiedDir, FirstMatch, Seconds, DistinctFiles;
    var archived := Archived(planned, read);
    var after := Updated(idx, kind, z, scan.files, archived, scan.dirMeta, deleted).files;
    var more := zips[z := Zipped(planned, read)];
    NewIndex(idx, kind, z, scan, planned, read, deleted);
    PlannedAre(idx.files, scan.files);
    ArchivedAre(planned, read);
    forall p <- after
      ensures after[p].archive in more && BytesOf(more, after, p).Some?
           && BytesOf(more, after, p).value == content(p, after[p].size, Seconds(after[p].mtime))
    {
      if p in Catalogs(archived) {
        var f :| f in archived && f.catalog == p;
        assert f in scan.files && f in planned;
        assert CaseDistinct(Catalogs(planned)) by { FewerPaths(Catalogs(planned), Present(idx, scan)); }
        ZippedIsFound(planned, read, f);
        assert after[p].(aclHash := []) == Rec(f.size, f.mtime, [], z);
      } else {
        var before := if kind == Full then map[] else idx.files - AsSet(deleted);
        assert p in before && after[p].(aclHash := []) == before[p].(aclHash := []);
        assert BytesOf(zips, idx.files, p).Some?;
      }
    }
  }

  lemma FewerPaths(some: set<bytes>, all: set<bytes>)
    requires CaseDistinct(all) && some <= all
    ensures CaseDistinct(some)
  {
  }

  lemma {:induction false} ListedCatalogs(planned: seq<LocalFile>, read: Reader)
    requires DistinctFiles(planned)
    ensures Catalogs(Listed(Zipped(planned, read))) == Catalogs(Archived(planned, read))
    decreases |planned|
  {
    hide Zipped, Listed, Archived, DistinctFiles;
    ghost var listed := Listed(Zipped(planned, read));
    RestatedIsArchived(planned, read, 0);
    assert planned[0..] == planned;
    RestatedCatalogs(planned, listed);
  }

  lemma {:induction false} RestatedCatalogs(planned: seq<LocalFile>, listed: seq<LocalFile>)
    ensures Catalogs(Restated(planned, listed)) == Catalogs(listed)
  {
    hide ByCatalog;
    if listed != [] {
      var rest := listed[1..];
      RestatedCatalogs(planned, rest);
      assert listed == [listed[0]] + rest;
      ByCatalogKeeps(planned, listed[0].catalog);
      var orig := ByCatalog(planned, listed[0].catalog);
      var head := if orig.Some? then orig.value else listed[0];
      assert Restated(planned, listed) == [head] + Restated(planned, rest) && head.catalog == listed[0].catalog;
      assert Catalogs([head] + Restated(planned, rest)) == {head.catalog} + Catalogs(Restated(planned, rest));
      assert Catalogs(listed) == {head.catalog} + Catalogs(rest);
    }
  }

  lemma {:induction false} ByCatalogKeeps(planned: seq<LocalFile>, catalog: bytes)
    ensures ByCatalog(planned, catalog).Some? ==> ByCatalog(planned, catalog).value.catalog == catalog
  {
    if planned != [] {
      ByCatalogKeeps(planned[..|planned| - 1], catalog);
    }
  }

  /** With nothing passed over, the index stands for exactly the tree that was scanned. */
  lemma IndexIsTheScan(idx: Index, kind: Kind, z: bytes, scan: Scan, planned: seq<LocalFile>,
                       read: Reader, deleted: seq<bytes>)
    requires DistinctFiles(scan.files) && planned == PlannedFor(idx, kind, scan.files)
    requires CaseDistinct(Present(idx, scan))
    requires kind == Incremental ==> forall p ::
      p in deleted <==> IsDeleted(idx.files, Catalogs(scan.files), scan.unverified, p)
    requires scan.unverified == [] && Unread(planned, read) == []
    requires PlannedFilesArchived(planned, Listed(Zipped(planned, read)), [])
    ensures var after := Updated(idx, kind, z, scan.files, Archived(planned, read), scan.dirMeta, deleted).files;
      && after.Keys == Catalogs(scan.files)
      && forall f <- scan.files ::
          after[f.catalog].size == f.size && Seconds(after[f.catalog].mtime) == Seconds(f.mtime)
  {
    hide Zipped, Archived, Planned, Updated, CaseDistinct, Listed, Unread, Seconds, DistinctFiles;
    var archived := Archived(planned, read);
    var after := Updated(idx, kind, z, scan.files, archived, scan.dirMeta, deleted).files;
    NewIndex(idx, kind, z, scan, planned, read, deleted);
    PlannedAre(idx.files, scan.files);
    ArchivedAre(planned, read);
    ListedCatalogs(planned, read);
    var before := if kind == Full then map[] else idx.files - AsSet(deleted);
    forall f <- scan.files
      ensures f.catalog in after && after[f.catalog].size == f.size
        && Seconds(after[f.catalog].mtime) == Seconds(f.mtime)
    {
      if f.catalog in Catalogs(archived) {
        var g :| g in archived && g.catalog == f.catalog;
        SameFile(scan.files, f, g);
      } else {
        assert f !in planned;
        assert f.catalog in before;
      }
    }
    forall p <- after
      ensures p in Catalogs(scan.files)
    {
      if p in Catalogs(archived) {
        var g :| g in archived && g.catalog == p;
        assert g in scan.files;
      } else {
        assert p in before && !UnderUnverifiedDir(p, []);
      }
    }
  }

  lemma SameFile(fs: seq<LocalFile>, f: LocalFile, g: LocalFile)
    requires DistinctFiles(fs) && f in fs && g in fs && f.catalog == g.catalog
    ensures f == g
  {
    var i :| 0 <= i < |fs| && fs[i] == f;
    var j :| 0 <= j < |fs| && fs[j] == g;
    assert i == j;
  }

  /** With nothing passed over, everything planned is archived. */
  lemma AllArchived(planned: seq<LocalFile>, read: Reader)
    requires DistinctFiles(planned) && PlannedFilesArchived(planned, Listed(Zipped(planned, read)), [])
    ensures Archived(planned, read) == planned
  {
    hide Zipped, Archived, Listed, DistinctFiles;
    ListedCatalogs(planned, read);
    ArchivedAre(planned, read);
    forall f <- planned
      ensures f in Archived(planned, read)
    {
      assert f.catalog in Catalogs(Archived(planned, read));
      var g :| g in Archived(planned, read) && g.catalog == f.catalog;
      SameFile(planned, f, g);
    }
    WholePlan(planned, read);
  }

  lemma {:induction false} WholePlan(planned: seq<LocalFile>, read: Reader)
    requires forall f <- planned :: read(f.catalog).Content? && !IsDirName(f.rel)
    ensures Archived(planned, read) == planned
  {
    if planned != [] {
      WholePlan(planned[1..], read);
      assert planned == [planned[0]] + planned[1..];
    }
  }
}
