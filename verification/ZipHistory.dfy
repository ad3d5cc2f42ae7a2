/** A ZIP backup job over its lifetime: every snapshot it made can be put together again. */
module ZipHistory {
  import opened Bytes
  import opened Options
  import opened Paths
  import opened FI = FastIncremental
  import opened ZipIndex
  import opened ZipRunner
  import opened ZipView
  import opened ZipMirror

  datatype Scan = Scan(files: seq<LocalFile>, dirMeta: map<bytes, Entry>, skipped: nat, unverified: seq<bytes>)

  /** Which uploads and the final save succeed, and whether removing leftovers does. */
  datatype Wire = Wire(zip: bool, manifest: bool, meta: bool, save: bool, cleanup: bool)

  datatype Outcome = Failed | NoChange(last: bytes) | Made(kind: Kind, name: bytes)

  /** What is read from the disk is what the scan saw. */
  ghost predicate Steady(content: Oracle, fs: seq<LocalFile>, read: Reader) {
    forall f <- fs | read(f.catalog).Content? ::
      read(f.catalog).data == content(f.catalog, f.size, Seconds(f.mtime))
  }

  /** The archive the index names for a path has the bytes the index stands for. */
  ghost predicate Holds(content: Oracle, zips: map<bytes, seq<ZipEntry>>, files: map<bytes, Rec>) {
    forall p <- files :: files[p].archive in zips && BytesOf(zips, files, p).Some?
      && BytesOf(zips, files, p).value == content(p, files[p].size, Seconds(files[p].mtime))
  }

  function BytesOf(zips: map<bytes, seq<ZipEntry>>, files: map<bytes, Rec>, p: bytes): Option<bytes>
    requires p in files && files[p].archive in zips
  {
    var e := FirstMatch(zips[files[p].archive], p);
    if e.Some? then Some(e.value.data) else None
  }

  /** Everything in the one is in the other. */
  ghost predicate Within(small: Remote, big: Remote) {
    && (forall n <- small.zips :: n in big.zips && big.zips[n] == small.zips[n])
    && (forall n <- small.manifests :: n in big.manifests && big.manifests[n] == small.manifests[n])
    && (forall n <- small.metas :: n in big.metas && big.metas[n] == small.metas[n])
  }

  /** The archive `z` was made when the index became `idx`, and its chain leads back to it. */
  ghost predicate SnapshotOf(idx: Index, z: bytes, w: Remote) {
    && idx.baseFull != [] && z == LastArchiveName(idx)
    && z in w.manifests && w.manifests[z].chain == ChainOf(idx)
    && (forall n <- ChainOf(idx) :: n in w.zips && n in w.manifests)
    && (IsIncrementalArchiveName(z) || w.manifests[z] == Manifest(Full, [z], []))
    && CaseDistinct(idx.files.Keys)
    && (forall p <- idx.files :: idx.files[p].archive in ChainOf(idx))
    && Mirrors(Replay(w, ChainOf(idx)), idx.files)
  }

  lemma {:induction false} ReplayWithin(small: Remote, big: Remote, chain: seq<bytes>)
    requires Within(small, big) && forall n <- chain :: n in small.zips && n in small.manifests
    ensures forall n <- chain :: n in big.zips && n in big.manifests
    ensures Replay(big, chain) == Replay(small, chain)
  {
    hide EnterAll, DropAll, ListZipFiles;
    if chain != [] {
      var init, last := chain[..|chain| - 1], chain[|chain| - 1];
      assert forall n <- init :: n in chain;
      ReplayWithin(small, big, init);
      assert last in chain;
    }
  }

  lemma SnapshotWithin(idx: Index, z: bytes, small: Remote, big: Remote)
    requires SnapshotOf(idx, z, small) && Within(small, big)
    ensures SnapshotOf(idx, z, big)
  {
    hide Replay, Mirrors, CaseDistinct, IsIncrementalArchiveName;
    ReplayWithin(small, big, ChainOf(idx));
  }

  /** What is left of the remote side replays a snapshot as it was made, or not at all. */
  lemma RemainsReplay(idx: Index, z: bytes, remote: Remote, w: Remote)
    requires SnapshotOf(idx, z, w) && Within(remote, w) && Complete(remote, z)
    ensures Replay(remote, ChainFor(remote, z)) == Replay(w, ChainOf(idx))
    ensures forall n <- ChainOf(idx) :: n in remote.zips
  {
    hide Mirrors, CaseDistinct, SafeComponent, EnterAll, DropAll, ListZipFiles;
    if z in remote.manifests {
      assert ChainFor(remote, z) == ChainOf(idx);
      ReplayWithin(remote, w, ChainOf(idx));
    } else {
      assert ChainFor(remote, z) == [z] == ChainOf(idx);
      assert [z][..0] == [];
    }
  }

  /** Files of one archive, each found under its own path. */
  lemma {:induction false} ZippedIsFound(planned: seq<LocalFile>, read: Reader, f: LocalFile)
    requires f in planned && read(f.catalog).Content? && CaseDistinct(Catalogs(planned)) && DistinctFiles(planned)
    ensures FirstMatch(Zipped(planned, read), f.catalog)
         == Some(ZipEntry(f.rel, read(f.catalog).modified, read(f.catalog).data))
    decreases |planned|
  {
    hide Lower, Backslashed;
    var g, rest := planned[0], planned[1..];
    assert planned == [g] + rest;
    assert g in planned && g.catalog in Catalogs(planned) && f.catalog in Catalogs(planned);
    BackslashedTwice(f.rel);
    BackslashedTwice(g.rel);
    if f == g {
      SameCatalogAtHead(planned, read);
    } else {
      assert f in rest;
      assert Catalogs(rest) <= Catalogs(planned);
      ZippedIsFound(rest, read, f);
      var i :| 0 <= i < |planned| && planned[i] == f;
      assert g.catalog != f.catalog;
      SameCatalogAtHead(planned, read);
    }
  }

  lemma SameCatalogAtHead(planned: seq<LocalFile>, read: Reader)
    requires planned != []
    ensures var g := planned[0];
      Zipped(planned, read) == if read(g.catalog).Content?
                               then [ZipEntry(g.rel, read(g.catalog).modified, read(g.catalog).data)]
                                    + Zipped(planned[1..], read)
                               else Zipped(planned[1..], read)
  {
  }

  lemma BackslashedTwice(s: bytes)
    ensures Backslashed(Backslashed(s)) == Backslashed(s)
  {
  }

  /** An index updated by an archive of these files. */
  lemma UpdatedFiles(idx: Index, kind: Kind, z: bytes, all: seq<LocalFile>, archived: seq<LocalFile>,
                     dirMeta: map<bytes, Entry>, deleted: seq<bytes>)
    requires forall i, j :: 0 <= i < j < |archived| ==> archived[i].catalog != archived[j].catalog
    ensures var before := if kind == Full then map[] else idx.files - AsSet(deleted);
      var after := Updated(idx, kind, z, all, archived, dirMeta, deleted).files;
      && after.Keys == before.Keys + Catalogs(archived)
      && (forall p <- before | p !in Catalogs(archived) :: after[p].(aclHash := []) == before[p].(aclHash := []))
      && (forall f <- archived :: after[f.catalog].(aclHash := []) == Rec(f.size, f.mtime, [], z))
  {
    hide PutRecs, PutMetas, RefreshAcl;
    if kind == Full {
      PutRecsAre(map[], archived, z);
    } else {
      var gone := AsSet(deleted);
      PutRecsAre(idx.files - gone, archived, z);
      RefreshKeeps(PutRecs(idx.files - gone, archived, z), PutMetas(idx.meta - gone, archived), all,
                   Catalogs(archived));
    }
  }
}
