/** The local index of a ZIP backup job, and what a job leaves on the remote side. */
module ZipIndex {
  import opened Bytes
  import opened Paths
  import opened FI = FastIncremental
  import opened PxarFormat

  datatype Kind = Full | Incremental

  /** Security descriptor, attributes and times of a file or directory. */
  datatype Entry = Entry(sddl: bytes, attributes: nat, mtime: int, ctime: int, atime: int) {
    predicate HasMeta() {
      sddl != [] || attributes != 0 || mtime != 0 || ctime != 0 || atime != 0
    }
  }

  datatype Rec = Rec(size: int, mtime: int, aclHash: bytes, archive: bytes)

  datatype ArchiveRecord = ArchiveRecord(name: bytes, kind: Kind, deleted: seq<bytes>)

  datatype Index = Index(baseFull: bytes, archives: seq<ArchiveRecord>, files: map<bytes, Rec>, meta: map<bytes, Entry>)

  const EMPTY: Index := Index([], [], map[], map[])

  /** A file the walk found; `catalog` is `rel` with backslashes. */
  datatype LocalFile = LocalFile(rel: bytes, catalog: bytes, size: int, mtime: int, aclHash: bytes, meta: Entry)

  datatype Manifest = Manifest(kind: Kind, chain: seq<bytes>, deleted: seq<bytes>)

  datatype ZipEntry = ZipEntry(name: bytes, modified: int, data: bytes)

  /** The destination directory: archives with their manifest and metadata sidecars. */
  datatype Remote = Remote(zips: map<bytes, seq<ZipEntry>>, manifests: map<bytes, Manifest>,
                           metas: map<bytes, map<bytes, Entry>>)

  predicate NeedsContentBackup(files: map<bytes, Rec>, f: LocalFile) {
    f.catalog !in files || files[f.catalog].size != f.size || !MtimeMatches(files[f.catalog].mtime, f.mtime)
  }

  predicate NeedsACLBackup(files: map<bytes, Rec>, f: LocalFile) {
    f.aclHash != [] && (f.catalog !in files || files[f.catalog].aclHash != f.aclHash)
  }

  /** Archive names of a chain: the full one and every incremental since. */
  function IncrementalNames(archives: seq<ArchiveRecord>): seq<bytes> {
    if archives == [] then [] else
      (if archives[0].kind == Incremental then [archives[0].name] else []) + IncrementalNames(archives[1..])
  }

  function ChainOf(idx: Index): seq<bytes> {
    [idx.baseFull] + IncrementalNames(idx.archives)
  }

  function LastArchiveName(idx: Index): bytes {
    if |idx.archives| > 0 then idx.archives[|idx.archives| - 1].name else idx.baseFull
  }

  predicate IsDirName(name: bytes) {
    name != [] && name[|name| - 1] == SLASH
  }

  /** Some part between slashes is "..". */
  predicate HasDotDot(s: bytes) {
    exists i | 0 <= i <= |s| - 2 ::
      s[i] == 46 && s[i + 1] == 46 && (i == 0 || s[i - 1] == BACKSLASH) && (i + 2 == |s| || s[i + 2] == BACKSLASH)
  }

  /** `safeZipEntryName`, where both slashes separate. */
  predicate SafeZipEntryName(name: bytes) {
    var s := TrimSpace(Backslashed(name));
    s != [] && s[0] != BACKSLASH && 58 !in s && !HasDotDot(s)
  }

  lemma SafeAsCatalog(name: bytes)
    ensures SafeZipEntryName(Backslashed(name)) == SafeZipEntryName(name)
  {
    assert Backslashed(Backslashed(name)) == Backslashed(name);
  }
}
