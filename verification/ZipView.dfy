/** The restore side: a snapshot put together from the archives of its chain. */
module ZipView {
  import opened Bytes
  import opened Options
  import opened Paths
  import opened PxarFormat
  import opened ZipIndex

  datatype SnapshotFile = SnapshotFile(path: bytes, size: int, modified: int)

  /** Both maps are keyed by lower-case path. */
  datatype View = View(files: map<bytes, SnapshotFile>, fileSource: map<bytes, bytes>)

  /** "_incr.zip" somewhere in the name. */
  predicate IsIncrementalArchiveName(name: bytes) {
    name != [] && ([95, 105, 110, 99, 114, 46, 122, 105, 112] <= Lower(name) || IsIncrementalArchiveName(name[1..]))
  }

  /** A name that is one path component. */
  predicate SafeComponent(name: bytes) {
    var base := TrimSlashes(Backslashed(TrimSpace(name)));
    base != [] && BACKSLASH !in base && base != [46] && base != [46, 46] && 58 !in base
  }

  function ListZipFiles(entries: seq<ZipEntry>): seq<SnapshotFile> {
    if entries == [] then [] else
      var e := entries[0];
      (if !IsDirName(e.name) && SafeZipEntryName(e.name)
       then [SnapshotFile(Backslashed(e.name), |e.data|, e.modified)] else [])
      + ListZipFiles(entries[1..])
  }

  function LowerSet(paths: seq<bytes>): (keys: set<bytes>)
    ensures forall d <- paths :: Lower(d) in keys
    ensures forall k <- keys :: exists d <- paths :: Lower(d) == k
  {
    set d <- paths :: Lower(d)
  }

  lemma LowerSetGrows(paths: seq<bytes>, i: nat)
    requires i < |paths|
    ensures LowerSet(paths[..i + 1]) == LowerSet(paths[..i]) + {Lower(paths[i])}
  {
    hide Lower;
    assert paths[..i + 1] == paths[..i] + [paths[i]];
  }

  function DropAll(v: View, deleted: seq<bytes>): View {
    View(v.files - LowerSet(deleted), v.fileSource - LowerSet(deleted))
  }

  function EnterAll(v: View, name: bytes, fs: seq<SnapshotFile>): View
    decreases |fs|
  {
    if fs == [] then v else
      var key := Lower(fs[0].path);
      EnterAll(View(v.files[key := fs[0]], v.fileSource[key := name]), name, fs[1..])
  }

  /** One archive of the chain: its deletions first, then its files. */
  function ApplyArchive(v: View, remote: Remote, name: bytes): View
    requires name in remote.zips
  {
    EnterAll(if name in remote.manifests && remote.manifests[name].kind == Incremental
             then DropAll(v, remote.manifests[name].deleted) else v,
             name, ListZipFiles(remote.zips[name]))
  }

  function Replay(remote: Remote, chain: seq<bytes>): View
    requires forall n <- chain :: n in remote.zips
  {
    if chain == [] then View(map[], map[]) else
      ApplyArchive(Replay(remote, chain[..|chain| - 1]), remote, chain[|chain| - 1])
  }

  function ChainFor(remote: Remote, ref: bytes): seq<bytes> {
    if ref in remote.manifests && remote.manifests[ref].chain != [] then remote.manifests[ref].chain else [ref]
  }

  /** Everything the snapshot needs is there, under names that can be used. */
  predicate Complete(remote: Remote, ref: bytes) {
    && ref in remote.zips && (ref in remote.manifests || !IsIncrementalArchiveName(ref))
    && forall n <- ChainFor(remote, ref) ::
         SafeComponent(n) && n in remote.zips && (n == ref || n in remote.manifests)
  }

  method BuildSnapshotView(remote: Remote, ref: bytes) returns (r: Option<View>, meta: map<bytes, Entry>)
    ensures r.Some? <==> Complete(remote, ref)
    ensures r.Some? ==> r.value == Replay(remote, ChainFor(remote, ref))
    ensures r.Some? ==> meta == if ref in remote.metas then remote.metas[ref] else map[]
  {
    hide SafeComponent, IsIncrementalArchiveName, Replay, ApplyArchive;
    meta := map[];
    if ref !in remote.zips { return None, meta; }
    if ref !in remote.manifests && IsIncrementalArchiveName(ref) { return None, meta; }
    var chain := [ref];
    if ref in remote.manifests && |remote.manifests[ref].chain| > 0 { chain := remote.manifests[ref].chain; }
    for i := 0 to |chain|
      invariant forall n <- chain[..i] :: SafeComponent(n)
    {
      if !SafeComponent(chain[i]) { return None, meta; }
    }
    assert chain[..|chain|] == chain;
    meta := if ref in remote.metas then remote.metas[ref] else map[];
    var files, source := map[], map[];
    StartReplay(remote, chain);
    for i := 0 to |chain|
      invariant forall n <- chain[..i] :: n in remote.zips && (n == ref || n in remote.manifests)
      invariant View(files, source) == Replay(remote, chain[..i])
    {
      var name := chain[i];
      assert name in chain;
      if name !in remote.manifests && name != ref { return None, meta; }
      if name !in remote.zips { return None, meta; }
      NextReplay(remote, chain, i);
      files, source := ReplayOne(remote, name, files, source);
    }
    return Some(View(files, source)), meta;
  }

  lemma StartReplay(remote: Remote, chain: seq<bytes>)
    ensures chain[..0] == [] && Replay(remote, []) == View(map[], map[])
  {
  }

  lemma NextReplay(remote: Remote, chain: seq<bytes>, i: nat)
    requires i < |chain| && (forall n <- chain[..i] :: n in remote.zips) && chain[i] in remote.zips
    ensures forall n <- chain[..i + 1] :: n in remote.zips
    ensures Replay(remote, chain[..i + 1]) == ApplyArchive(Replay(remote, chain[..i]), remote, chain[i])
  {
    hide ApplyArchive;
    assert chain[..i + 1] == chain[..i] + [chain[i]];
    assert chain[..i + 1][..i] == chain[..i];
  }

  /** The body of the chain loop. */
  method ReplayOne(remote: Remote, name: bytes, files0: map<bytes, SnapshotFile>, source0: map<bytes, bytes>)
    returns (files: map<bytes, SnapshotFile>, source: map<bytes, bytes>)
    requires name in remote.zips
    ensures View(files, source) == ApplyArchive(View(files0, source0), remote, name)
  {
    hide DropAll, EnterAll;
    files, source := files0, source0;
    if name in remote.manifests && remote.manifests[name].kind == Incremental {
      files, source := Drop(files, source, remote.manifests[name].deleted);
    }
    files, source := Enter(files, source, name, ListZipFiles(remote.zips[name]));
  }

  method Drop(files0: map<bytes, SnapshotFile>, source0: map<bytes, bytes>, deleted: seq<bytes>)
    returns (files: map<bytes, SnapshotFile>, source: map<bytes, bytes>)
    ensures View(files, source) == DropAll(View(files0, source0), deleted)
  {
    hide LowerSet, Lower;
    files, source := files0, source0;
    assert LowerSet(deleted[..0]) == {};
    for i := 0 to |deleted|
      invariant files == files0 - LowerSet(deleted[..i]) && source == source0 - LowerSet(deleted[..i])
    {
      LowerSetGrows(deleted, i);
      files, source := files - {Lower(deleted[i])}, source - {Lower(deleted[i])};
    }
    assert deleted[..|deleted|] == deleted;
  }

  method Enter(files0: map<bytes, SnapshotFile>, source0: map<bytes, bytes>, name: bytes, entries: seq<SnapshotFile>)
    returns (files: map<bytes, SnapshotFile>, source: map<bytes, bytes>)
    ensures View(files, source) == EnterAll(View(files0, source0), name, entries)
  {
    files, source := files0, source0;
    var rest := entries;
    while rest != []
      invariant EnterAll(View(files, source), name, rest) == EnterAll(View(files0, source0), name, entries)
      decreases |rest|
    {
      var key := Lower(rest[0].path);
      files, source := files[key := rest[0]], source[key := name];
      rest := rest[1..];
    }
  }

  /** The first entry whose path is the wanted one, letter case and slashes aside. */
  function FirstMatch(entries: seq<ZipEntry>, path: bytes): Option<ZipEntry> {
    if entries == [] then None else
    if Lower(Backslashed(entries[0].name)) == Lower(Backslashed(path)) then Some(entries[0]) else
      FirstMatch(entries[1..], path)
  }

  /** The bytes a restore of one file writes. */
  function RestoreFile(remote: Remote, v: View, path: bytes): Option<bytes> {
    var key := Lower(path);
    if key !in v.fileSource || v.fileSource[key] !in remote.zips || !SafeZipEntryName(path) then None else
      var e := FirstMatch(remote.zips[v.fileSource[key]], path);
      if e.Some? then Some(e.value.data) else None
  }
}
