/** One run of a ZIP backup: what goes into the archive, its sidecars and the index. */
module ZipRunner {
  import opened Bytes
  import opened Options
  import opened Paths
  import opened PxarFormat
  import opened ZipIndex

  // Deleted paths.

  predicate UnderUnverifiedDir(catalog: bytes, unverified: seq<bytes>) {
    exists prefix <- unverified :: Lower(catalog) == Lower(prefix) || Lower(prefix) + [BACKSLASH] <= Lower(catalog)
  }

  predicate IsDeleted(files: map<bytes, Rec>, current: set<bytes>, unverified: seq<bytes>, p: bytes) {
    p in files && p !in current && !UnderUnverifiedDir(p, unverified)
  }

  method ComputeDeleted(files: map<bytes, Rec>, current: set<bytes>, unverified: seq<bytes>)
    returns (deleted: seq<bytes>)
    ensures forall p :: p in deleted <==> IsDeleted(files, current, unverified, p)
    ensures forall i, j :: 0 <= i < j < |deleted| ==> deleted[i] != deleted[j]
  {
    deleted := [];
    var rest := files.Keys;
    while rest != {}
      invariant rest <= files.Keys
      invariant forall p :: p in deleted <==> p !in rest && IsDeleted(files, current, unverified, p)
      invariant forall i, j :: 0 <= i < j < |deleted| ==> deleted[i] != deleted[j]
      decreases |rest|
    {
      var path :| path in rest;
      rest := rest - {path};
      if path !in current && !UnderUnverifiedDir(path, unverified) {
        deleted := deleted + [path];
      }
    }
  }

  function Catalogs(fs: seq<LocalFile>): (s: set<bytes>)
    ensures forall p :: p in s <==> exists f <- fs :: f.catalog == p
  {
    set f <- fs :: f.catalog
  }

  /** Each path once, and filed under its own name. */
  predicate DistinctFiles(fs: seq<LocalFile>) {
    && (forall f <- fs :: f.catalog == Backslashed(f.rel))
    && (forall i, j :: 0 <= i < j < |fs| ==> fs[i].catalog != fs[j].catalog)
  }

  lemma DistinctHead(fs: seq<LocalFile>)
    requires DistinctFiles(fs) && fs != []
    ensures DistinctFiles(fs[1..]) && fs[0].catalog == Backslashed(fs[0].rel)
    ensures fs[0].catalog !in Catalogs(fs[1..])
  {
    hide Backslashed;
  }

  lemma DistinctCons(f: LocalFile, some: seq<LocalFile>, rest: seq<LocalFile>)
    requires DistinctFiles(some) && f.catalog == Backslashed(f.rel)
    requires f.catalog !in Catalogs(rest) && forall g <- some :: g in rest
    ensures DistinctFiles([f] + some) && [] + some == some
  {
    hide Backslashed;
    forall i, j | 0 <= i < j < |some| + 1
      ensures ([f] + some)[i].catalog != ([f] + some)[j].catalog
    {
      assert some[j - 1] in some;
    }
  }

  // What has to go into an incremental archive.

  function Planned(files: map<bytes, Rec>, fs: seq<LocalFile>): seq<LocalFile> {
    if fs == [] then [] else
      (if NeedsContentBackup(files, fs[0]) then [fs[0]] else []) + Planned(files, fs[1..])
  }

  predicate AnyAclChange(files: map<bytes, Rec>, fs: seq<LocalFile>) {
    exists f <- fs :: NeedsACLBackup(files, f)
  }

  method Plan(files: map<bytes, Rec>, fs: seq<LocalFile>)
    returns (toArchive: seq<LocalFile>, metaChanged: bool, current: set<bytes>)
    ensures toArchive == Planned(files, fs) && metaChanged == AnyAclChange(files, fs) && current == Catalogs(fs)
  {
    hide NeedsContentBackup, NeedsACLBackup;
    toArchive, metaChanged, current := [], false, {};
    for i := 0 to |fs|
      invariant toArchive + Planned(files, fs[i..]) == Planned(files, fs)
      invariant metaChanged == AnyAclChange(files, fs[..i]) && current == Catalogs(fs[..i])
    {
      var f := fs[i];
      ghost var more := Planned(files, fs[i + 1..]);
      assert fs[i..][1..] == fs[i + 1..] && fs[..i + 1] == fs[..i] + [f];
      assert (toArchive + [f]) + more == toArchive + ([f] + more) && [] + more == more;
      current := current + {f.catalog};
      if NeedsACLBackup(files, f) { metaChanged := true; }
      if NeedsContentBackup(files, f) { toArchive := toArchive + [f]; }
    }
    assert fs[..|fs|] == fs && fs[|fs|..] == [];
  }

  lemma {:induction false} PlannedAre(files: map<bytes, Rec>, fs: seq<LocalFile>)
    requires DistinctFiles(fs)
    ensures forall f :: f in Planned(files, fs) <==> f in fs && NeedsContentBackup(files, f)
    ensures DistinctFiles(Planned(files, fs))
  {
    hide Backslashed, NeedsContentBackup, DistinctFiles;
    if fs != [] {
      DistinctHead(fs);
      PlannedAre(files, fs[1..]);
      DistinctCons(fs[0], Planned(files, fs[1..]), fs[1..]);
      assert fs == [fs[0]] + fs[1..];
    }
  }

  // The archive.

  /** What reading a file for the archive comes to: it cannot be opened, breaks off, or is read. */
  datatype Read = Blocked | Broken | Content(modified: int, data: bytes)

  type Reader = bytes -> Read

  function Zipped(planned: seq<LocalFile>, read: Reader): seq<ZipEntry> {
    if planned == [] then [] else
      var f := planned[0];
      (match read(f.catalog)
       case Content(modified, data) => [ZipEntry(f.rel, modified, data)]
       case _ => [])
      + Zipped(planned[1..], read)
  }

  function Unread(planned: seq<LocalFile>, read: Reader): seq<bytes> {
    if planned == [] then [] else
      (if read(planned[0].catalog).Blocked? then [planned[0].catalog] else []) + Unread(planned[1..], read)
  }

  lemma {:induction false} UnreadAre(planned: seq<LocalFile>, read: Reader)
    ensures forall p :: p in Unread(planned, read) <==> exists f <- planned :: f.catalog == p && read(p).Blocked?
  {
    if planned != [] {
      UnreadAre(planned[1..], read);
      assert planned == [planned[0]] + planned[1..];
    }
  }

  /** Every file can be read, or may be passed over. */
  predicate CanZip(planned: seq<LocalFile>, skipAccess: bool, read: Reader) {
    planned != [] ==>
      (match read(planned[0].catalog) case Content(_, _) => true case Blocked => skipAccess case Broken => false)
      && CanZip(planned[1..], skipAccess, read)
  }

  method WriteZip(planned: seq<LocalFile>, skipAccess: bool, read: Reader)
    returns (r: Option<seq<ZipEntry>>, skipped: seq<bytes>)
    ensures r.Some? <==> CanZip(planned, skipAccess, read)
    ensures r.Some? ==> r.value == Zipped(planned, read) && skipped == Unread(planned, read)
  {
    var entries, rest := [], planned;
    skipped := [];
    while rest != []
      invariant entries + Zipped(rest, read) == Zipped(planned, read)
      invariant skipped + Unread(rest, read) == Unread(planned, read)
      invariant CanZip(planned, skipAccess, read) <==> CanZip(rest, skipAccess, read)
      decreases |rest|
    {
      var f := rest[0];
      var r := read(f.catalog);
      ghost var more, missed := Zipped(rest[1..], read), Unread(rest[1..], read);
      if r.Broken? { return None, skipped; }
      if r.Blocked? {
        if !skipAccess { return None, skipped; }
        assert (skipped + [f.catalog]) + missed == skipped + ([f.catalog] + missed);
        skipped := skipped + [f.catalog];
      } else {
        var e := ZipEntry(f.rel, r.modified, r.data);
        assert (entries + [e]) + more == entries + ([e] + more);
        entries := entries + [e];
      }
      rest := rest[1..];
    }
    return Some(entries), skipped;
  }

  const NO_META: Entry := Entry([], 0, 0, 0, 0)

  /** What is read back from the finished archive, directories left out. */
  function Listed(entries: seq<ZipEntry>): seq<LocalFile> {
    if entries == [] then [] else
      var e := entries[0];
      (if IsDirName(e.name) then [] else [LocalFile(e.name, Backslashed(e.name), |e.data|, e.modified, [], NO_META)])
      + Listed(entries[1..])
  }

  method ListZipEntries(entries: seq<ZipEntry>) returns (out: seq<LocalFile>)
    ensures out == Listed(entries)
  {
    out := [];
    var rest := entries;
    while rest != []
      invariant out + Listed(rest) == Listed(entries)
      decreases |rest|
    {
      var e := rest[0];
      if !IsDirName(e.name) {
        out := out + [LocalFile(e.name, Backslashed(e.name), |e.data|, e.modified, [], NO_META)];
      }
      rest := rest[1..];
    }
  }

  /** No planned file may be missing from the archive without having been skipped on purpose. */
  predicate PlannedFilesArchived(planned: seq<LocalFile>, listed: seq<LocalFile>, skipped: seq<bytes>) {
    forall f <- planned :: f.catalog in skipped || f.catalog in Catalogs(listed)
  }

  predicate SignificantSkips(skipped: nat, total: nat) {
    skipped > 0 && total > 0 && skipped * 10 > total
  }

  /** The planned files that are in the archive. */
  function Archived(planned: seq<LocalFile>, read: Reader): seq<LocalFile> {
    if planned == [] then [] else
      (if read(planned[0].catalog).Content? && !IsDirName(planned[0].rel) then [planned[0]] else [])
      + Archived(planned[1..], read)
  }

  lemma {:induction false} ArchivedAre(planned: seq<LocalFile>, read: Reader)
    requires DistinctFiles(planned)
    ensures forall f :: f in Archived(planned, read) <==> f in planned && read(f.catalog).Content? && !IsDirName(f.rel)
    ensures DistinctFiles(Archived(planned, read))
  {
    hide Backslashed, IsDirName, DistinctFiles;
    if planned != [] {
      DistinctHead(planned);
      ArchivedAre(planned[1..], read);
      DistinctCons(planned[0], Archived(planned[1..], read), planned[1..]);
      assert planned == [planned[0]] + planned[1..];
    }
  }

  /** The planned file with this path, the last one if there are several. */
  function ByCatalog(planned: seq<LocalFile>, catalog: bytes): Option<LocalFile> {
    if planned == [] then None else
    if planned[|planned| - 1].catalog == catalog then Some(planned[|planned| - 1]) else
      ByCatalog(planned[..|planned| - 1], catalog)
  }

  lemma {:induction false} ByCatalogFinds(planned: seq<LocalFile>, i: nat)
    requires i < |planned|
    requires forall i, j :: 0 <= i < j < |planned| ==> planned[i].catalog != planned[j].catalog
    ensures ByCatalog(planned, planned[i].catalog) == Some(planned[i])
    decreases |planned|
  {
    if i < |planned| - 1 {
      ByCatalogFinds(planned[..|planned| - 1], i);
    }
  }

  /** What was read back, each entry traded for the planned file of its path. */
  function Restated(planned: seq<LocalFile>, listed: seq<LocalFile>): seq<LocalFile> {
    if listed == [] then [] else
      var orig := ByCatalog(planned, listed[0].catalog);
      [if orig.Some? then orig.value else listed[0]] + Restated(planned, listed[1..])
  }

  method IndexByCatalog(planned: seq<LocalFile>) returns (table: map<bytes, LocalFile>)
    ensures forall c :: ByCatalog(planned, c) == if c in table then Some(table[c]) else None
  {
    table := map[];
    for i := 0 to |planned|
      invariant forall c :: ByCatalog(planned[..i], c) == if c in table then Some(table[c]) else None
    {
      assert planned[..i + 1][..i] == planned[..i];
      table := table[planned[i].catalog := planned[i]];
    }
    assert planned[..|planned|] == planned;
  }

  method Restate(planned: seq<LocalFile>, listed: seq<LocalFile>) returns (archived: seq<LocalFile>)
    ensures archived == Restated(planned, listed)
  {
    hide ByCatalog;
    var table := IndexByCatalog(planned);
    archived := [];
    var rest := listed;
    while rest != []
      invariant archived + Restated(planned, rest) == Restated(planned, listed)
      decreases |rest|
    {
      var z := rest[0];
      ghost var orig := ByCatalog(planned, z.catalog);
      archived := archived + [if z.catalog in table then table[z.catalog] else z];
      rest := rest[1..];
    }
  }

  /** The detour over the archive gives back the planned files that are in it. */
  lemma {:induction false} RestatedIsArchived(planned: seq<LocalFile>, read: Reader, i: nat)
    requires DistinctFiles(planned) && i <= |planned|
    ensures Restated(planned, Listed(Zipped(planned[i..], read))) == Archived(planned[i..], read)
    decreases |planned| - i
  {
    hide ByCatalog, Backslashed, IsDirName;
    if i < |planned| {
      RestatedIsArchived(planned, read, i + 1);
      var f := planned[i];
      var more := Zipped(planned[i + 1..], read);
      assert planned[i..][1..] == planned[i + 1..] && planned[i..][0] == f;
      if read(f.catalog).Content? {
        var e := ZipEntry(f.rel, read(f.catalog).modified, read(f.catalog).data);
        assert ([e] + more)[1..] == more && [] + Listed(more) == Listed(more);
        assert [] + Archived(planned[i + 1..], read) == Archived(planned[i + 1..], read);
        if !IsDirName(f.rel) {
          assert f in planned;
          var z := LocalFile(e.name, Backslashed(e.name), |e.data|, e.modified, [], NO_META);
          ByCatalogFinds(planned, i);
          assert ([z] + Listed(more))[1..] == Listed(more);
          assert Restated(planned, [z] + Listed(more)) == [f] + Restated(planned, Listed(more));
        }
      } else {
        assert [] + more == more;
      }
    }
  }

  // The sidecars.

  method BuildManifest(kind: Kind, zipName: bytes, idx: Index, deleted: seq<bytes>) returns (m: Manifest)
    ensures m == if kind == Full then Manifest(Full, [zipName], [])
                 else Manifest(Incremental, ChainOf(idx) + [zipName], deleted)
  {
    if kind == Full { return Manifest(Full, [zipName], []); }
    var chain, rest := [idx.baseFull], idx.archives;
    while rest != []
      invariant chain + IncrementalNames(rest) == ChainOf(idx)
      decreases |rest|
    {
      if rest[0].kind == Incremental { chain := chain + [rest[0].name]; }
      rest := rest[1..];
    }
    chain := chain + [zipName];
    return Manifest(Incremental, chain, deleted);
  }

  /** Metadata of files, filed only when there is some. */
  function SetMetas(m: map<bytes, Entry>, fs: seq<LocalFile>): map<bytes, Entry>
    decreases |fs|
  {
    if fs == [] then m else
      SetMetas(if fs[0].meta.HasMeta() then m[fs[0].catalog := fs[0].meta] else m, fs[1..])
  }

  function SetDirs(m: map<bytes, Entry>, dirMeta: map<bytes, Entry>): map<bytes, Entry> {
    m + (map p <- dirMeta | dirMeta[p].HasMeta() :: dirMeta[p])
  }

  function Changed(files: map<bytes, Rec>, fs: seq<LocalFile>): seq<LocalFile> {
    if fs == [] then [] else
      (if NeedsContentBackup(files, fs[0]) || NeedsACLBackup(files, fs[0]) then [fs[0]] else [])
      + Changed(files, fs[1..])
  }

  function AsSet(s: seq<bytes>): set<bytes> {
    set p <- s
  }

  function SnapshotMeta(idx: Index, kind: Kind, all: seq<LocalFile>, archived: seq<LocalFile>,
                        dirMeta: map<bytes, Entry>, deleted: seq<bytes>): map<bytes, Entry>
  {
    if kind == Full then SetDirs(SetMetas(map[], archived), dirMeta)
    else SetDirs(SetMetas(idx.meta - AsSet(deleted), Changed(idx.files, all)), dirMeta)
  }

  method BuildSnapshotMeta(idx: Index, kind: Kind, all: seq<LocalFile>, archived: seq<LocalFile>,
                           dirMeta: map<bytes, Entry>, deleted: seq<bytes>) returns (out: map<bytes, Entry>)
    ensures out == SnapshotMeta(idx, kind, all, archived, dirMeta, deleted)
  {
    if kind == Full {
      out := map[];
      var rest := archived;
      while rest != []
        invariant SetMetas(out, rest) == SetMetas(map[], archived)
        decreases |rest|
      {
        if rest[0].meta.HasMeta() { out := out[rest[0].catalog := rest[0].meta]; }
        rest := rest[1..];
      }
      out := SetDirs(out, dirMeta);
      return;
    }
    out := idx.meta;
    for i := 0 to |deleted|
      invariant out == idx.meta - AsSet(deleted[..i])
    {
      out := out - {deleted[i]};
      assert AsSet(deleted[..i + 1]) == AsSet(deleted[..i]) + {deleted[i]};
    }
    assert deleted[..|deleted|] == deleted;
    ghost var m := out;
    var rest := all;
    while rest != []
      invariant SetMetas(out, Changed(idx.files, rest)) == SetMetas(m, Changed(idx.files, all))
      decreases |rest|
    {
      var f := rest[0];
      ghost var more := Changed(idx.files, rest[1..]);
      assert [] + more == more && ([f] + more)[1..] == more;
      if NeedsContentBackup(idx.files, f) || NeedsACLBackup(idx.files, f) {
        if f.meta.HasMeta() { out := out[f.catalog := f.meta]; }
      }
      rest := rest[1..];
    }
    out := SetDirs(out, dirMeta);
  }

  // The index after the run.

  function PutRecs(files: map<bytes, Rec>, fs: seq<LocalFile>, zipName: bytes): map<bytes, Rec>
    decreases |fs|
  {
    if fs == [] then files else
      PutRecs(files[fs[0].catalog := Rec(fs[0].size, fs[0].mtime, fs[0].aclHash, zipName)], fs[1..], zipName)
  }

  function PutMetas(m: map<bytes, Entry>, fs: seq<LocalFile>): map<bytes, Entry>
    decreases |fs|
  {
    if fs == [] then m else PutMetas(m[fs[0].catalog := fs[0].meta], fs[1..])
  }

  /** Files whose permissions alone changed. */
  function RefreshAcl(files: map<bytes, Rec>, m: map<bytes, Entry>, fs: seq<LocalFile>, archived: set<bytes>)
    : (map<bytes, Rec>, map<bytes, Entry>)
    decreases |fs|
  {
    if fs == [] then (files, m) else
      var f := fs[0];
      if f.catalog !in archived && f.catalog in files && NeedsACLBackup(files, f)
      then RefreshAcl(files[f.catalog := files[f.catalog].(aclHash := f.aclHash)], m[f.catalog := f.meta],
                      fs[1..], archived)
      else RefreshAcl(files, m, fs[1..], archived)
  }

  function Updated(idx: Index, kind: Kind, zipName: bytes, all: seq<LocalFile>, archived: seq<LocalFile>,
                   dirMeta: map<bytes, Entry>, deleted: seq<bytes>): Index
  {
    if kind == Full then
      Index(zipName, [ArchiveRecord(zipName, Full, [])], PutRecs(map[], archived, zipName),
            PutMetas(map[], archived) + dirMeta)
    else
      var gone := AsSet(deleted);
      var (files, meta) := RefreshAcl(PutRecs(idx.files - gone, archived, zipName), PutMetas(idx.meta - gone, archived),
                                      all, Catalogs(archived));
      Index(idx.baseFull, idx.archives + [ArchiveRecord(zipName, Incremental, deleted)], files, meta + dirMeta)
  }

  class Store {
    var baseFull: bytes
    var archives: seq<ArchiveRecord>
    var files: map<bytes, Rec>
    var meta: map<bytes, Entry>

    function AsIndex(): Index
      reads this
    {
      Index(baseFull, archives, files, meta)
    }

    constructor (idx: Index)
      ensures AsIndex() == idx
    {
      baseFull, archives, files, meta := idx.baseFull, idx.archives, idx.files, idx.meta;
    }

    method PutArchived(zipName: bytes, archived: seq<LocalFile>)
      modifies `files, `meta
      ensures files == PutRecs(old(files), archived, zipName) && meta == PutMetas(old(meta), archived)
    {
      var rest := archived;
      while rest != []
        invariant PutRecs(files, rest, zipName) == PutRecs(old(files), archived, zipName)
        invariant PutMetas(meta, rest) == PutMetas(old(meta), archived)
        decreases |rest|
      {
        var f := rest[0];
        files := files[f.catalog := Rec(f.size, f.mtime, f.aclHash, zipName)];
        meta := meta[f.catalog := f.meta];
        rest := rest[1..];
      }
    }

    method UpdateStore(kind: Kind, zipName: bytes, all: seq<LocalFile>, archived: seq<LocalFile>,
                       dirMeta: map<bytes, Entry>, deleted: seq<bytes>)
      modifies this
      ensures AsIndex() == Updated(old(AsIndex()), kind, zipName, all, archived, dirMeta, deleted)
    {
      hide PutRecs, PutMetas;
      if kind == Full {
        baseFull, archives, files, meta := zipName, [ArchiveRecord(zipName, Full, [])], map[], map[];
        PutArchived(zipName, archived);
        meta := meta + dirMeta;
        return;
      }
      for i := 0 to |deleted|
        modifies `files, `meta
        invariant files == old(files) - AsSet(deleted[..i]) && meta == old(meta) - AsSet(deleted[..i])
      {
        files, meta := files - {deleted[i]}, meta - {deleted[i]};
        assert AsSet(deleted[..i + 1]) == AsSet(deleted[..i]) + {deleted[i]};
      }
      assert deleted[..|deleted|] == deleted;
      PutArchived(zipName, archived);
      ghost var files0, meta0 := files, meta;
      var archivedSet := Catalogs(archived);
      var rest := all;
      while rest != []
        modifies `files, `meta
        invariant RefreshAcl(files, meta, rest, archivedSet) == RefreshAcl(files0, meta0, all, archivedSet)
        decreases |rest|
      {
        var f := rest[0];
        if f.catalog !in archivedSet && f.catalog in files && NeedsACLBackup(files, f) {
          meta := meta[f.catalog := f.meta];
          files := files[f.catalog := files[f.catalog].(aclHash := f.aclHash)];
        }
        rest := rest[1..];
      }
      meta := meta + dirMeta;
      archives := archives + [ArchiveRecord(zipName, Incremental, deleted)];
    }
  }
}
