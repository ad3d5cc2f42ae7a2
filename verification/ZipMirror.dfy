/** Why the replayed chain and the local index stay mirror images. */
module ZipMirror {
  import opened Bytes
  import opened Paths
  import opened ZipIndex
  import opened ZipRunner
  import opened ZipView

  /** The view shows exactly the index's paths, each from the archive the index names; unsafe names are not shown. */
  ghost predicate Mirrors(v: View, files: map<bytes, Rec>) {
    && v.fileSource.Keys == v.files.Keys
    && (forall p <- files | SafeZipEntryName(p) :: Lower(p) in v.files
          && v.files[Lower(p)].path == p && v.fileSource[Lower(p)] == files[p].archive)
    && (forall k <- v.files :: exists p <- files :: SafeZipEntryName(p) && Lower(p) == k)
  }

  /** No two paths differ in letter case only. */
  ghost predicate CaseDistinct(paths: set<bytes>) {
    forall p, q | p in paths && q in paths :: Lower(p) == Lower(q) ==> p == q
  }

  // What the folds come to.

  lemma {:induction false} PutRecsAre(files: map<bytes, Rec>, fs: seq<LocalFile>, z: bytes)
    requires forall i, j :: 0 <= i < j < |fs| ==> fs[i].catalog != fs[j].catalog
    ensures PutRecs(files, fs, z).Keys == files.Keys + Catalogs(fs)
    ensures forall p <- files | p !in Catalogs(fs) :: PutRecs(files, fs, z)[p] == files[p]
    ensures forall f <- fs :: PutRecs(files, fs, z)[f.catalog] == Rec(f.size, f.mtime, f.aclHash, z)
    decreases |fs|
  {
    if fs != [] {
      var f, rest := fs[0], fs[1..];
      PutRecsAre(files[f.catalog := Rec(f.size, f.mtime, f.aclHash, z)], rest, z);
      assert fs == [f] + rest;
      assert f.catalog !in Catalogs(rest);
      assert Catalogs(fs) == {f.catalog} + Catalogs(rest);
    }
  }

  lemma {:induction false} RefreshKeeps(files: map<bytes, Rec>, m: map<bytes, Entry>, fs: seq<LocalFile>,
                                        done: set<bytes>)
    ensures var (r, _) := RefreshAcl(files, m, fs, done);
      r.Keys == files.Keys && forall p <- files :: r[p].(aclHash := []) == files[p].(aclHash := [])
    decreases |fs|
  {
    if fs != [] {
      var f := fs[0];
      if f.catalog !in done && f.catalog in files && NeedsACLBackup(files, f) {
        RefreshKeeps(files[f.catalog := files[f.catalog].(aclHash := f.aclHash)], m[f.catalog := f.meta],
                     fs[1..], done);
      } else {
        RefreshKeeps(files, m, fs[1..], done);
      }
    }
  }

  function LowersOf(fs: seq<SnapshotFile>): (keys: set<bytes>)
    ensures forall f <- fs :: Lower(f.path) in keys
    ensures forall k <- keys :: exists f <- fs :: Lower(f.path) == k
  {
    set f <- fs :: Lower(f.path)
  }

  lemma {:induction false} EnterAllAt(v: View, name: bytes, fs: seq<SnapshotFile>, k: bytes)
    requires v.fileSource.Keys == v.files.Keys
    ensures var r := EnterAll(v, name, fs);
      && r.fileSource.Keys == r.files.Keys && (k in r.files <==> k in v.files || k in LowersOf(fs))
      && (k in LowersOf(fs) ==> r.files[k] in fs && Lower(r.files[k].path) == k && r.fileSource[k] == name)
      && (k in v.files && k !in LowersOf(fs) ==> r.files[k] == v.files[k] && r.fileSource[k] == v.fileSource[k])
    decreases |fs|
  {
    hide Lower;
    if fs != [] {
      var key, rest := Lower(fs[0].path), fs[1..];
      EnterAllAt(View(v.files[key := fs[0]], v.fileSource[key := name]), name, rest, k);
      assert fs == [fs[0]] + rest;
      assert k in LowersOf(fs) <==> k == key || k in LowersOf(rest);
    }
  }

  lemma EnterAllAre(v: View, name: bytes, fs: seq<SnapshotFile>)
    requires v.fileSource.Keys == v.files.Keys
    ensures var r := EnterAll(v, name, fs);
      && r.fileSource.Keys == r.files.Keys == v.files.Keys + LowersOf(fs)
      && (forall k <- LowersOf(fs) :: r.files[k] in fs && Lower(r.files[k].path) == k && r.fileSource[k] == name)
      && (forall k <- v.files | k !in LowersOf(fs) :: r.files[k] == v.files[k] && r.fileSource[k] == v.fileSource[k])
  {
    hide Lower, EnterAll, LowersOf;
    EnterAllAt(v, name, fs, []);
    forall k
      ensures k in EnterAll(v, name, fs).files <==> k in v.files || k in LowersOf(fs)
    {
      EnterAllAt(v, name, fs, k);
    }
    forall k <- LowersOf(fs)
      ensures var r := EnterAll(v, name, fs);
        k in r.files && r.files[k] in fs && Lower(r.files[k].path) == k && r.fileSource[k] == name
    {
      EnterAllAt(v, name, fs, k);
    }
    forall k <- v.files | k !in LowersOf(fs)
      ensures var r := EnterAll(v, name, fs);
        k in r.files && r.files[k] == v.files[k] && r.fileSource[k] == v.fileSource[k]
    {
      EnterAllAt(v, name, fs, k);
    }
  }

  /** What a restore lists in an archive: the archived files with safe names. */
  lemma {:induction false} ListedAre(planned: seq<LocalFile>, read: Reader)
    requires forall f <- planned :: f.catalog == Backslashed(f.rel)
    ensures var fs := ListZipFiles(Zipped(planned, read)); var paths := Catalogs(Archived(planned, read));
      && (forall s <- fs :: s.path in paths && SafeZipEntryName(s.path))
      && (forall p <- paths | SafeZipEntryName(p) :: exists s <- fs :: s.path == p)
    decreases |planned|
  {
    hide Backslashed, IsDirName, SafeZipEntryName;
    if planned != [] {
      var f, rest := planned[0], planned[1..];
      ListedAre(rest, read);
      assert planned == [f] + rest;
      SafeAsCatalog(f.rel);
      var more := ListZipFiles(Zipped(rest, read));
      var fs := ListZipFiles(Zipped(planned, read));
      var kept := Archived(rest, read);
      match read(f.catalog) {
        case Content(modified, data) =>
          var e := ZipEntry(f.rel, modified, data);
          assert ([e] + Zipped(rest, read))[1..] == Zipped(rest, read);
          if !IsDirName(f.rel) {
            assert Archived(planned, read) == [f] + kept;
            assert Catalogs(Archived(planned, read)) == {f.catalog} + Catalogs(kept);
            if SafeZipEntryName(f.rel) {
              assert fs == [SnapshotFile(f.catalog, |data|, modified)] + more;
            } else {
              assert fs == more;
            }
          } else {
            assert fs == more && Archived(planned, read) == kept;
          }
        case _ =>
          assert Zipped(planned, read) == Zipped(rest, read) && Archived(planned, read) == kept;
      }
    }
  }

  /** One archive more: what was deleted goes, what was archived comes, the rest stays. */
  lemma MirrorsStep(v: View, files: map<bytes, Rec>, gone: seq<bytes>, z: bytes, fs: seq<SnapshotFile>,
                    come: set<bytes>, files': map<bytes, Rec>)
    requires Mirrors(v, files) && CaseDistinct(files.Keys) && CaseDistinct(files'.Keys)
    requires forall d <- gone :: d in files
    requires files'.Keys == files.Keys - AsSet(gone) + come
    requires forall p <- files' :: files'[p].archive == if p in come then z else files[p].archive
    requires forall s <- fs :: s.path in come && SafeZipEntryName(s.path)
    requires forall p <- come | SafeZipEntryName(p) :: exists s <- fs :: s.path == p
    ensures Mirrors(EnterAll(DropAll(v, gone), z, fs), files')
  {
    hide Lower, SafeZipEntryName, EnterAll;
    var dropped := DropAll(v, gone);
    EnterAllAre(dropped, z, fs);
    var r := EnterAll(dropped, z, fs);
    forall p <- files' | SafeZipEntryName(p)
      ensures Lower(p) in r.files && r.files[Lower(p)].path == p && r.fileSource[Lower(p)] == files'[p].archive
    {
      if p in come {
        assert Lower(p) in LowersOf(fs);
        assert r.files[Lower(p)] in fs;
      } else {
        assert p in files && p !in AsSet(gone);
        assert Lower(p) !in LowersOf(fs) && Lower(p) !in LowerSet(gone);
      }
    }
    forall k <- r.files
      ensures exists p <- files' :: SafeZipEntryName(p) && Lower(p) == k
    {
      if k in LowersOf(fs) {
        assert r.files[k].path in files';
      } else {
        var p :| p in files && SafeZipEntryName(p) && Lower(p) == k;
        assert p !in gone;
        assert p in files';
      }
    }
  }

  /** The view has all paths of the index exactly when every one of them is a safe name. */
  lemma AllPathsShown(v: View, files: map<bytes, Rec>)
    requires Mirrors(v, files) && CaseDistinct(files.Keys)
    ensures (forall p <- files :: Lower(p) in v.files) <==> (forall p <- files :: SafeZipEntryName(p))
  {
    hide Lower, SafeZipEntryName;
    forall p <- files | Lower(p) in v.files
      ensures SafeZipEntryName(p)
    {
      var q :| q in files && SafeZipEntryName(q) && Lower(q) == Lower(p);
      assert q in files.Keys && p in files.Keys;
    }
  }
}
