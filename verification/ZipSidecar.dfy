/** The metadata sidecar is computed before the index is updated; why they agree. */
module ZipSidecar {
  import opened Bytes
  import opened ZipIndex
  import opened ZipRunner
  import opened ZipMirror
  import opened ZipStep

  lemma {:induction false} SetIsPut(m: map<bytes, Entry>, fs: seq<LocalFile>)
    requires forall f <- fs :: f.meta.HasMeta()
    ensures SetMetas(m, fs) == PutMetas(m, fs)
    decreases |fs|
  {
    if fs != [] {
      SetIsPut(m[fs[0].catalog := fs[0].meta], fs[1..]);
    }
  }

  /** Changed files are the planned ones and those whose permissions alone changed. */
  lemma {:induction false} ChangedAre(files: map<bytes, Rec>, fs: seq<LocalFile>)
    requires DistinctFiles(fs)
    ensures forall f :: f in Changed(files, fs) <==>
      f in fs && (NeedsContentBackup(files, f) || NeedsACLBackup(files, f))
    ensures DistinctFiles(Changed(files, fs))
  {
    hide NeedsContentBackup, NeedsACLBackup, DistinctFiles;
    if fs != [] {
      DistinctHead(fs);
      ChangedAre(files, fs[1..]);
      DistinctCons(fs[0], Changed(files, fs[1..]), fs[1..]);
      assert fs == [fs[0]] + fs[1..];
    }
  }

  lemma {:induction false} PutMetasAre(m: map<bytes, Entry>, fs: seq<LocalFile>)
    requires DistinctFiles(fs)
    ensures PutMetas(m, fs).Keys == m.Keys + Catalogs(fs)
    ensures forall p <- m | p !in Catalogs(fs) :: PutMetas(m, fs)[p] == m[p]
    ensures forall f <- fs :: PutMetas(m, fs)[f.catalog] == f.meta
    decreases |fs|
  {
    hide DistinctFiles;
    if fs != [] {
      DistinctHead(fs);
      PutMetasAre(m[fs[0].catalog := fs[0].meta], fs[1..]);
      assert fs == [fs[0]] + fs[1..];
      assert Catalogs(fs) == {fs[0].catalog} + Catalogs(fs[1..]);
    }
  }

  /** The files the permission pass touches. */
  predicate Touched(files: map<bytes, Rec>, done: set<bytes>, f: LocalFile) {
    f.catalog !in done && f.catalog in files && NeedsACLBackup(files, f)
  }

  lemma {:induction false} RefreshMetasAre(files: map<bytes, Rec>, m: map<bytes, Entry>, fs: seq<LocalFile>,
                                           done: set<bytes>)
    requires DistinctFiles(fs)
    ensures var (_, r) := RefreshAcl(files, m, fs, done);
      && (forall p <- r :: p in m || exists f <- fs :: f.catalog == p && Touched(files, done, f))
      && (forall p <- m :: p in r && (r[p] == m[p] || exists f <- fs :: f.catalog == p && Touched(files, done, f)))
      && (forall f <- fs :: if Touched(files, done, f) then f.catalog in r && r[f.catalog] == f.meta
                            else f.catalog in m ==> r[f.catalog] == m[f.catalog])
    decreases |fs|
  {
    hide DistinctFiles;
    if fs != [] {
      var f, rest := fs[0], fs[1..];
      DistinctHead(fs);
      assert fs == [f] + rest;
      if Touched(files, done, f) {
        var files', m' := files[f.catalog := files[f.catalog].(aclHash := f.aclHash)], m[f.catalog := f.meta];
        RefreshMetasAre(files', m', rest, done);
        assert forall g <- rest :: g.catalog != f.catalog && Touched(files', done, g) == Touched(files, done, g);
      } else {
        RefreshMetasAre(files, m, rest, done);
      }
    }
  }

  /** With metadata for every file and directory, and nothing passed over, the sidecar is the index's metadata. */
  lemma SidecarIsMeta(idx: Index, kind: Kind, z: bytes, all: seq<LocalFile>, archived: seq<LocalFile>,
                      dirMeta: map<bytes, Entry>, deleted: seq<bytes>)
    requires DistinctFiles(all) && (forall f <- all :: f.meta.HasMeta()) && forall d <- dirMeta :: dirMeta[d].HasMeta()
    requires if kind == Full then forall f <- archived :: f in all else archived == Planned(idx.files, all)
    requires forall d <- deleted :: d !in Catalogs(all)
    ensures SnapshotMeta(idx, kind, all, archived, dirMeta, deleted)
         == Updated(idx, kind, z, all, archived, dirMeta, deleted).meta
  {
    hide SetMetas, PutMetas, PutRecs, RefreshAcl, Changed, Planned, DistinctFiles;
    assert (map p <- dirMeta | dirMeta[p].HasMeta() :: dirMeta[p]) == dirMeta;
    if kind == Full {
      SetIsPut(map[], archived);
    } else {
      ChangedAre(idx.files, all);
      SetIsPut(idx.meta - AsSet(deleted), Changed(idx.files, all));
      PermissionsCatchUp(idx, z, all, deleted);
    }
  }

  lemma PermissionsCatchUp(idx: Index, z: bytes, all: seq<LocalFile>, deleted: seq<bytes>)
    requires DistinctFiles(all) && forall d <- deleted :: d !in Catalogs(all)
    ensures var gone, archived := AsSet(deleted), Planned(idx.files, all);
      RefreshAcl(PutRecs(idx.files - gone, archived, z), PutMetas(idx.meta - gone, archived), all, Catalogs(archived)).1
      == PutMetas(idx.meta - gone, Changed(idx.files, all))
  {
    hide PutMetas, PutRecs, RefreshAcl, Changed, Planned, DistinctFiles, NeedsContentBackup;
    var gone, archived, changed := AsSet(deleted), Planned(idx.files, all), Changed(idx.files, all);
    var files, m0, done := PutRecs(idx.files - gone, archived, z), idx.meta - gone, Catalogs(archived);
    var m := PutMetas(m0, archived);
    PlannedAre(idx.files, all);
    ChangedAre(idx.files, all);
    DistinctCatalogs(archived);
    PutRecsAre(idx.files - gone, archived, z);
    PutMetasAre(m0, archived);
    PutMetasAre(m0, changed);
    RefreshMetasAre(files, m, all, done);
    forall f <- all
      ensures Touched(files, done, f) <==> f in changed && f !in archived
      ensures f.catalog in done <==> f in archived
    {
      if f.catalog in done {
        var g :| g in archived && g.catalog == f.catalog;
        SameFile(all, f, g);
      }
      if f.catalog in idx.files && f.catalog !in done {
        assert files[f.catalog] == idx.files[f.catalog];
      }
      StillNew(idx.files, f);
    }
    MetasAgree(m0, archived, changed, all, m, RefreshAcl(files, m, all, done).1, files, done);
  }

  lemma StillNew(files: map<bytes, Rec>, f: LocalFile)
    ensures f.catalog !in files ==> NeedsContentBackup(files, f)
  {
  }

  lemma DistinctCatalogs(fs: seq<LocalFile>)
    requires DistinctFiles(fs)
    ensures forall i, j :: 0 <= i < j < |fs| ==> fs[i].catalog != fs[j].catalog
  {
  }

  lemma MetasAgree(m0: map<bytes, Entry>, archived: seq<LocalFile>, changed: seq<LocalFile>, all: seq<LocalFile>,
                   m: map<bytes, Entry>, r: map<bytes, Entry>, files: map<bytes, Rec>, done: set<bytes>)
    requires forall f <- changed :: f in all
    requires forall f <- archived :: f in changed
    requires DistinctFiles(all) && DistinctFiles(archived) && DistinctFiles(changed)
    requires m == PutMetas(m0, archived) && done == Catalogs(archived)
    requires forall f <- all :: Touched(files, done, f) <==> f in changed && f !in archived
    requires r == RefreshAcl(files, m, all, done).1
    ensures r == PutMetas(m0, changed)
  {
    hide PutMetas, RefreshAcl, DistinctFiles, Touched;
    PutMetasAre(m0, archived);
    PutMetasAre(m0, changed);
    RefreshMetasAre(files, m, all, done);
    var want := PutMetas(m0, changed);
    assert r.Keys == want.Keys;
    forall p <- r
      ensures r[p] == want[p]
    {
      if p in Catalogs(changed) {
        var f :| f in changed && f.catalog == p;
        assert f in all && want[p] == f.meta;
        if f in archived { assert m[p] == f.meta; }
      } else {
        assert want[p] == m0[p] && m[p] == m0[p];
      }
    }
  }
}
