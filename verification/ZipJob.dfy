/** A ZIP job over its lifetime: runs, losses on the remote side, and restores. */
module ZipJob {
  import opened Bytes
  import opened Options
  import opened Paths
  import opened PxarFormat
  import opened FI = FastIncremental
  import opened ZipIndex
  import opened ZipRunner
  import opened ZipView
  import opened ZipMirror
  import opened ZipHistory
  import opened ZipStep
  import opened ZipSidecar

  /** A run's decision between a full archive, an incremental one and nothing at all. */
  method Decide(idx: Index, remote: Remote, forceFull: bool, scan: Scan)
    returns (kind: Kind, toArchive: seq<LocalFile>, deleted: seq<bytes>, nothing: bool)
    ensures kind == (if NeedsFull(idx, remote, forceFull) then Full else Incremental)
    ensures toArchive == PlannedFor(idx, kind, scan.files)
    ensures kind == Full ==> deleted == [] && !nothing
    ensures kind == Incremental ==>
      forall p :: p in deleted <==> IsDeleted(idx.files, Catalogs(scan.files), scan.unverified, p)
    ensures kind == Incremental ==>
      (nothing <==> toArchive == [] && deleted == [] && !AnyAclChange(idx.files, scan.files))
  {
    hide Catalogs, IsDeleted, Planned, AnyAclChange;
    if NeedsFull(idx, remote, forceFull) { return Full, scan.files, [], false; }
    var metaChanged, current;
    toArchive, metaChanged, current := Plan(idx.files, scan.files);
    deleted := ComputeDeleted(idx.files, current, scan.unverified);
    if |deleted| > 0 { metaChanged := true; }
    return Incremental, toArchive, deleted, |toArchive| == 0 && |deleted| == 0 && !metaChanged;
  }

  predicate Fresh(w: Remote, z: bytes) {
    z !in w.zips && z !in w.manifests && z !in w.metas
  }

  lemma DistinctPlan(idx: Index, kind: Kind, fs: seq<LocalFile>)
    requires DistinctFiles(fs)
    ensures DistinctFiles(PlannedFor(idx, kind, fs))
  {
    hide DistinctFiles;
    PlannedAre(idx.files, fs);
  }

  lemma Grows(w: Remote, z: bytes, entries: seq<ZipEntry>, m: Manifest, meta: map<bytes, Entry>)
    requires Fresh(w, z)
    ensures Within(w, Put(w, z, entries, m, meta))
  {
  }

  /** Every archive ever made still leads back to the index of its time, and to the bytes that stands for. */
  ghost predicate AllGood(content: Oracle, snapshots: map<bytes, Index>, w: Remote) {
    forall z <- snapshots :: SnapshotOf(snapshots[z], z, w) && Holds(content, w.zips, snapshots[z].files)
  }

  lemma StillGood(content: Oracle, snapshots: map<bytes, Index>, w: Remote, w': Remote)
    requires AllGood(content, snapshots, w) && Within(w, w')
    ensures AllGood(content, snapshots, w')
  {
    hide SnapshotOf, FirstMatch;
    forall z <- snapshots
      ensures SnapshotOf(snapshots[z], z, w')
      ensures Holds(content, w'.zips, snapshots[z].files)
    {
      SnapshotWithin(snapshots[z], z, w, w');
      var files := snapshots[z].files;
      forall p <- files
        ensures files[p].archive in w'.zips && BytesOf(w'.zips, files, p) == BytesOf(w.zips, files, p)
      {
        assert files[p].archive in w.zips;
      }
    }
  }

  /** The archive a run just made joins the good ones. */
  lemma NowGood(content: Oracle, idx: Index, kind: Kind, z: bytes, scan: Scan, planned: seq<LocalFile>, read: Reader,
                deleted: seq<bytes>, w: Remote, entries: seq<ZipEntry>, m: Manifest, meta: map<bytes, Entry>,
                snapshots: map<bytes, Index>)
    requires DistinctFiles(scan.files) && planned == PlannedFor(idx, kind, scan.files)
    requires CaseDistinct(Present(idx, scan)) && Steady(content, scan.files, read) && Fresh(w, z) && z != []
    requires kind == Incremental ==>
      && IsIncrementalArchiveName(z) && SnapshotOf(idx, LastArchiveName(idx), w) && Holds(content, w.zips, idx.files)
      && forall p :: p in deleted <==> IsDeleted(idx.files, Catalogs(scan.files), scan.unverified, p)
    requires entries == Zipped(planned, read)
    requires m == if kind == Full then Manifest(Full, [z], []) else Manifest(Incremental, ChainOf(idx) + [z], deleted)
    requires AllGood(content, snapshots, Put(w, z, entries, m, meta))
    ensures var after := Updated(idx, kind, z, scan.files, Archived(planned, read), scan.dirMeta, deleted);
      AllGood(content, snapshots[z := after], Put(w, z, entries, m, meta))
  {
    hide Within, SnapshotOf, Holds, Steady, CaseDistinct, DistinctFiles, Zipped, Archived, Planned, Catalogs, Updated,
         Present, IsDeleted, IsIncrementalArchiveName;
    Grows(w, z, entries, m, meta);
    NextSnapshot(idx, kind, z, scan, planned, read, deleted, w, Put(w, z, entries, m, meta));
    NextHolds(content, idx, kind, z, scan, planned, read, deleted, w.zips);
  }

  /** What the index says when a run starts. */
  function Start(disk: Index, forceFull: bool): Index {
    if forceFull then EMPTY else disk
  }

  function KindOf(idx: Index, remote: Remote, forceFull: bool): Kind {
    if NeedsFull(idx, remote, forceFull) then Full else Incremental
  }

  predicate NothingToDo(idx: Index, kind: Kind, fs: seq<LocalFile>, deleted: seq<bytes>) {
    kind == Incremental && Planned(idx.files, fs) == [] && deleted == [] && !AnyAclChange(idx.files, fs)
  }

  /** All that one run is about to upload and record. */
  datatype Upload = Upload(kind: Kind, z: bytes, entries: seq<ZipEntry>, archived: seq<LocalFile>, manifest: Manifest,
                           meta: map<bytes, Entry>, deleted: seq<bytes>)

  function Ready(idx: Index, kind: Kind, z: bytes, scan: Scan, read: Reader, deleted: seq<bytes>): Upload {
    var planned := PlannedFor(idx, kind, scan.files);
    var archived := Archived(planned, read);
    Upload(kind, z, Zipped(planned, read), archived,
           if kind == Full then Manifest(Full, [z], []) else Manifest(Incremental, ChainOf(idx) + [z], deleted),
           SnapshotMeta(idx, kind, scan.files, archived, scan.dirMeta, deleted), deleted)
  }

  lemma ReadyIs(idx: Index, kind: Kind, z: bytes, scan: Scan, read: Reader, deleted: seq<bytes>)
    ensures var up := Ready(idx, kind, z, scan, read, deleted);
      var planned := PlannedFor(idx, kind, scan.files);
      && up.kind == kind && up.z == z && up.deleted == deleted
      && up.entries == Zipped(planned, read) && up.archived == Archived(planned, read)
      && up.manifest == if kind == Full then Manifest(Full, [z], [])
                        else Manifest(Incremental, ChainOf(idx) + [z], deleted)
  {
  }

  lemma NameFacts(kind: Kind, host: bytes, stamp: bytes)
    ensures ZipName(kind, host, stamp) != []
    ensures kind == Incremental ==> IsIncrementalArchiveName(ZipName(kind, host, stamp))
  {
    EndsIncremental(host + [95] + stamp);
  }

  /** The part of a run before anything is uploaded. */
  method Prepare(idx: Index, remote: Remote, forceFull: bool, scan: Scan, skipAccess: bool, read: Reader,
                 host: bytes, stamp: bytes)
    returns (r: Outcome, up: Upload)
    requires DistinctFiles(scan.files)
    ensures var kind := KindOf(idx, remote, forceFull);
      r.Made? <==> scan.files != [] && !NothingToDo(idx, kind, scan.files, up.deleted)
                   && GoodArchive(PlannedFor(idx, kind, scan.files), skipAccess, read, kind, scan.skipped, |scan.files|)
    ensures var kind := KindOf(idx, remote, forceFull);
      r.Made? ==> r == Made(kind, ZipName(kind, host, stamp)) && up == Ready(idx, kind, r.name, scan, read, up.deleted)
    ensures r.NoChange? <==> scan.files != [] && LastArchiveName(idx) != [] && LastArchiveName(idx) in remote.zips
                             && NothingToDo(idx, KindOf(idx, remote, forceFull), scan.files, up.deleted)
    ensures r.NoChange? ==> r.last == LastArchiveName(idx)
    ensures KindOf(idx, remote, forceFull) == Incremental ==>
      forall p :: p in up.deleted <==> IsDeleted(idx.files, Catalogs(scan.files), scan.unverified, p)
  {
    hide DistinctFiles, Zipped, Archived, Planned, Catalogs, SnapshotMeta, GoodArchive, AnyAclChange,
         IsDeleted, ZipName;
    var kind, toArchive, deleted, nothing := Decide(idx, remote, forceFull, scan);
    var z := ZipName(kind, host, stamp);
    up := Upload(kind, z, [], [], Manifest(kind, [], []), map[], deleted);
    if |scan.files| == 0 { return Failed, up; }
    if nothing {
      var last := LastArchiveName(idx);
      if last == [] || last !in remote.zips { return Failed, up; }
      return NoChange(last), up;
    }
    DistinctPlan(idx, kind, scan.files);
    var zip, archived := MakeArchive(toArchive, skipAccess, read, kind, scan.skipped, |scan.files|);
    if zip.None? { return Failed, up; }
    var manifest := BuildManifest(kind, z, idx, deleted);
    var meta := BuildSnapshotMeta(idx, kind, scan.files, archived, scan.dirMeta, deleted);
    return Made(kind, z), Upload(kind, z, zip.value, archived, manifest, meta, deleted);
  }

  /** What a run may rely on, whether or not it starts from scratch. */
  lemma StartsGood(content: Oracle, disk: Index, remote: Remote, forceFull: bool, scan: Scan,
                   snapshots: map<bytes, Index>, w: Remote)
    requires CaseDistinct(Present(disk, scan)) && AllGood(content, snapshots, w)
    requires disk.baseFull == [] || (LastArchiveName(disk) in snapshots && snapshots[LastArchiveName(disk)] == disk)
    ensures var idx := Start(disk, forceFull);
      && CaseDistinct(Present(idx, scan))
      && (KindOf(idx, remote, forceFull) == Incremental
          ==> SnapshotOf(idx, LastArchiveName(idx), w) && Holds(content, w.zips, idx.files))
  {
    hide CaseDistinct, SnapshotOf, Holds;
    if forceFull {
      FewerPaths(Present(EMPTY, scan), Present(disk, scan));
    }
  }

  /** A prepared run keeps everything good, once it is uploaded. */
  lemma UploadIsGood(content: Oracle, disk: Index, remote: Remote, forceFull: bool, scan: Scan, read: Reader,
                     host: bytes, stamp: bytes, deleted: seq<bytes>, snapshots: map<bytes, Index>, w: Remote)
    requires CaseDistinct(Present(disk, scan)) && AllGood(content, snapshots, w)
    requires disk.baseFull == [] || (LastArchiveName(disk) in snapshots && snapshots[LastArchiveName(disk)] == disk)
    requires DistinctFiles(scan.files) && Steady(content, scan.files, read)
    requires Fresh(w, ZipName(KindOf(Start(disk, forceFull), remote, forceFull), host, stamp))
    requires KindOf(Start(disk, forceFull), remote, forceFull) == Incremental ==> forall p ::
      p in deleted <==> IsDeleted(Start(disk, forceFull).files, Catalogs(scan.files), scan.unverified, p)
    ensures var idx := Start(disk, forceFull);
      var kind := KindOf(idx, remote, forceFull);
      var up := Ready(idx, kind, ZipName(kind, host, stamp), scan, read, deleted);
      var w' := Put(w, up.z, up.entries, up.manifest, up.meta);
      var after := Updated(idx, kind, up.z, scan.files, up.archived, scan.dirMeta, deleted);
      && LastArchiveName(after) == up.z
      && AllGood(content, snapshots, w') && AllGood(content, snapshots[up.z := after], w')
  {
    hide AllGood, CaseDistinct, SnapshotOf, Holds, Steady, Updated, DistinctFiles, Zipped, Archived, PlannedFor, KindOf,
         ZipName, SnapshotMeta, IsDeleted, Catalogs, Present, Within, IsIncrementalArchiveName;
    var idx := Start(disk, forceFull);
    var kind := KindOf(idx, remote, forceFull);
    var up := Ready(idx, kind, ZipName(kind, host, stamp), scan, read, deleted);
    StartsGood(content, disk, remote, forceFull, scan, snapshots, w);
    NameFacts(kind, host, stamp);
    NewChain(idx, kind, up.z, scan, up.archived, deleted);
    Grows(w, up.z, up.entries, up.manifest, up.meta);
    StillGood(content, snapshots, w, Put(w, up.z, up.entries, up.manifest, up.meta));
    NowGood(content, idx, kind, up.z, scan, PlannedFor(idx, kind, scan.files), read, deleted, w, up.entries,
            up.manifest, up.meta, snapshots);
  }

  /** What is at the destination after an attempt to upload and save one run. */
  function AfterUpload(w: Remote, up: Upload, wire: Wire): Remote {
    if !wire.zip then w
    else if wire.manifest && wire.meta && wire.save then Put(w, up.z, up.entries, up.manifest, up.meta)
    else if wire.cleanup then w
    else if !wire.manifest then w.(zips := w.zips[up.z := up.entries])
    else if !wire.meta then w.(zips := w.zips[up.z := up.entries], manifests := w.manifests[up.z := up.manifest])
    else Put(w, up.z, up.entries, up.manifest, up.meta)
  }

  lemma WithinAfter(w: Remote, all: Remote, up: Upload, wire: Wire)
    requires Within(w, all) && Fresh(all, up.z)
    ensures Within(AfterUpload(w, up, wire), Put(all, up.z, up.entries, up.manifest, up.meta))
  {
  }

  function Without(w: Remote, z: bytes): Remote {
    Remote(w.zips - {z}, w.manifests - {z}, w.metas - {z})
  }

  /** Taking a fresh archive back leaves no trace of it. */
  lemma WithoutFresh(w: Remote, all: Remote, up: Upload)
    requires Within(w, all) && Fresh(all, up.z)
    ensures Without(w.(zips := w.zips[up.z := up.entries]), up.z) == w
    ensures Without(w.(zips := w.zips[up.z := up.entries], manifests := w.manifests[up.z := up.manifest]), up.z) == w
    ensures Without(Put(w, up.z, up.entries, up.manifest, up.meta), up.z) == w
  {
  }

  /** Each archive is in its own chain, and all of a chain is at the destination unless it was lost there. */
  ghost predicate Kept(snapshots: map<bytes, Index>, lost: set<bytes>, remote: Remote) {
    forall z <- snapshots :: z in ChainOf(snapshots[z]) && Remains(ChainOf(snapshots[z]), snapshots.Keys, lost, remote)
  }

  predicate Remains(chain: seq<bytes>, made: set<bytes>, lost: set<bytes>, remote: Remote) {
    forall n <- chain :: n in made && (n in lost || (n in remote.zips && n in remote.manifests))
  }

  lemma StillKept(snapshots: map<bytes, Index>, lost: set<bytes>, remote: Remote, up: Upload, wire: Wire)
    requires Kept(snapshots, lost, remote)
    ensures Kept(snapshots, lost, AfterUpload(remote, up, wire))
  {
    hide ChainOf;
    forall z <- snapshots
      ensures Remains(ChainOf(snapshots[z]), snapshots.Keys, lost, AfterUpload(remote, up, wire))
    {
      assert Remains(ChainOf(snapshots[z]), snapshots.Keys, lost, remote);
    }
  }

  /** The archive just made leads a chain of its own, on top of the one before if it is incremental. */
  lemma NowKept(idx: Index, kind: Kind, scan: Scan, up: Upload, snapshots: map<bytes, Index>, lost: set<bytes>,
                remote: Remote)
    requires Kept(snapshots, lost, remote)
    requires kind == Incremental ==> LastArchiveName(idx) in snapshots && snapshots[LastArchiveName(idx)] == idx
    ensures var after := Updated(idx, kind, up.z, scan.files, up.archived, scan.dirMeta, up.deleted);
      Kept(snapshots[up.z := after], lost, Put(remote, up.z, up.entries, up.manifest, up.meta))
  {
    hide ChainOf, Updated, LastArchiveName;
    var after := Updated(idx, kind, up.z, scan.files, up.archived, scan.dirMeta, up.deleted);
    var all, w := snapshots[up.z := after], Put(remote, up.z, up.entries, up.manifest, up.meta);
    NewChain(idx, kind, up.z, scan, up.archived, up.deleted);
    forall z <- all
      ensures z in ChainOf(all[z]) && Remains(ChainOf(all[z]), all.Keys, lost, w)
    {
      if z != up.z {
        assert Remains(ChainOf(snapshots[z]), snapshots.Keys, lost, remote);
      } else if kind == Incremental {
        assert Remains(ChainOf(idx), snapshots.Keys, lost, remote);
      }
    }
  }

  /** What was not lost can be put together again, under names that can be used. */
  lemma KeptIsComplete(idx: Index, ref: bytes, snapshots: map<bytes, Index>, lost: set<bytes>, remote: Remote,
                       w: Remote)
    requires Kept(snapshots, lost, remote) && ref in snapshots && snapshots[ref] == idx
    requires SnapshotOf(idx, ref, w) && Within(remote, w)
    requires forall n <- ChainOf(idx) :: SafeComponent(n) && n !in lost
    ensures Complete(remote, ref)
  {
    hide ChainOf, SafeComponent, Replay, Mirrors, CaseDistinct, LastArchiveName, IsIncrementalArchiveName;
    assert Remains(ChainOf(idx), snapshots.Keys, lost, remote);
    assert ref in ChainOf(idx);
  }

  predicate PlainName(s: bytes) {
    SLASH !in s && BACKSLASH !in s && 58 !in s
  }

  /** A name made of a host name and a time stamp without separators can be used. */
  lemma MadeNamesAreSafe(kind: Kind, host: bytes, stamp: bytes)
    requires PlainName(host) && PlainName(stamp)
    ensures SafeComponent(ZipName(kind, host, stamp))
  {
    hide TrimSpace, TrimSlashes, IsSpace;
    var name := ZipName(kind, host, stamp);
    assert PlainName(name);
    assert name[|name| - 1] == 112;
    TrimmedFront(name);
    var base := TrimSpace(name);
    assert Backslashed(base) == base;
    Untouched(base);
  }

  /** Where the last byte is a letter, trimming takes away at the front only. */
  lemma {:induction false} TrimmedFront(s: bytes)
    requires s != [] && s[|s| - 1] == 112
    ensures var t := TrimSpace(s); t != [] && t[|t| - 1] == 112 && forall b <- t :: b in s
    decreases |s|
  {
    if IsSpace(s[0]) {
      assert |s| > 1;
      TrimmedFront(s[1..]);
      assert TrimSpace(s) == TrimSpace(s[1..]);
    }
  }

  lemma Untouched(s: bytes)
    requires s != [] && s[0] != BACKSLASH && s[|s| - 1] != BACKSLASH
    ensures TrimSlashes(s) == s
  {
  }

  /**
   When the archive just made can be put together: if all of its chain is there, with manifests, under names that
   can be used. The run itself looks at the full archive only.
   */
  lemma CompleteAfter(idx: Index, kind: Kind, scan: Scan, read: Reader, z: bytes, deleted: seq<bytes>, remote: Remote)
    requires kind == Incremental ==> z !in ChainOf(idx)
    ensures var up := Ready(idx, kind, z, scan, read, deleted);
      Complete(Put(remote, z, up.entries, up.manifest, up.meta), z) <==> ChainUsable(idx, kind, z, remote)
  {
    hide SafeComponent, ChainOf, IsIncrementalArchiveName, PlannedFor, SnapshotMeta, Archived, Zipped;
    var up := Ready(idx, kind, z, scan, read, deleted);
    var w := Put(remote, z, up.entries, up.manifest, up.meta);
    assert ChainFor(w, z) == if kind == Full then [z] else ChainOf(idx) + [z];
    if kind == Incremental {
      assert forall n <- ChainOf(idx) :: n in ChainOf(idx) + [z] && n != z;
    }
  }

  predicate ChainUsable(idx: Index, kind: Kind, z: bytes, remote: Remote) {
    SafeComponent(z)
    && (kind == Incremental ==>
        forall n <- ChainOf(idx) :: SafeComponent(n) && n in remote.zips && n in remote.manifests)
  }

  /** Every listed path of the index restores to the bytes the index stands for. */
  ghost predicate RestoresTo(content: Oracle, remote: Remote, v: View, files: map<bytes, Rec>) {
    forall p <- files | SafeZipEntryName(p) ::
      RestoreFile(remote, v, p) == Some(content(p, files[p].size, Seconds(files[p].mtime)))
  }

  /** Every scanned file restores to what the scan saw of it. */
  ghost predicate RestoresScan(content: Oracle, remote: Remote, v: View, fs: seq<LocalFile>) {
    forall f <- fs | SafeZipEntryName(f.catalog) ::
      RestoreFile(remote, v, f.catalog) == Some(content(f.catalog, f.size, Seconds(f.mtime)))
  }

  lemma ViewRestores(content: Oracle, idx: Index, ref: bytes, remote: Remote, w: Remote, v: View)
    requires SnapshotOf(idx, ref, w) && Holds(content, w.zips, idx.files) && Within(remote, w)
    requires Mirrors(v, idx.files) && forall n <- ChainOf(idx) :: n in remote.zips
    ensures RestoresTo(content, remote, v, idx.files)
  {
    hide FirstMatch, SafeZipEntryName, Seconds, Replay, CaseDistinct, IncrementalNames;
    forall p <- idx.files | SafeZipEntryName(p)
      ensures RestoreFile(remote, v, p) == Some(content(p, idx.files[p].size, Seconds(idx.files[p].mtime)))
    {
      assert BytesOf(w.zips, idx.files, p).Some?;
    }
  }

  class Job {
    ghost const content: Oracle
    /** The index file, and the destination. */
    var disk: Index
    var remote: Remote
    /** Everything ever uploaded, and the index each archive was made for. */
    ghost var written: Remote
    ghost var snapshots: map<bytes, Index>
    /** Every name ever taken away from the destination from outside. */
    ghost var lost: set<bytes>

    ghost predicate Valid()
      reads this
    {
      && Within(remote, written)
      && (disk.baseFull == [] || (LastArchiveName(disk) in snapshots && snapshots[LastArchiveName(disk)] == disk))
      && AllGood(content, snapshots, written)
      && Kept(snapshots, lost, remote)
    }

    constructor (ghost content: Oracle)
      ensures Valid() && disk == EMPTY && snapshots == map[] && lost == {} && this.content == content
    {
      this.content := content;
      lost := {};
      disk, remote, written, snapshots := EMPTY, Remote(map[], map[], map[]), Remote(map[], map[], map[]), map[];
    }

    /** Files vanish from the destination. */
    method Lose(names: set<bytes>)
      requires Valid()
      modifies `remote, `lost
      ensures Valid() && lost == old(lost) + names
      ensures remote == Remote(old(remote).zips - names, old(remote).manifests - names, old(remote).metas - names)
    {
      hide SnapshotOf, Holds, ChainOf;
      lost := lost + names;
      remote := Remote(remote.zips - names, remote.manifests - names, remote.metas - names);
    }

    /** The three uploads; what went up before a failure is removed again, if that works. */
    method Publish(up: Upload, wire: Wire) returns (ok: bool)
      requires Within(remote, written) && Fresh(written, up.z)
      modifies `remote, `written
      ensures written == Put(old(written), up.z, up.entries, up.manifest, up.meta)
      ensures ok <==> wire.zip && wire.manifest && wire.meta
      ensures remote == if ok then Put(old(remote), up.z, up.entries, up.manifest, up.meta)
                        else AfterUpload(old(remote), up, wire)
    {
      hide Within, Without;
      WithoutFresh(remote, written, up);
      written := Put(written, up.z, up.entries, up.manifest, up.meta);
      if !wire.zip { return false; }
      remote := remote.(zips := remote.zips[up.z := up.entries]);
      if !wire.manifest {
        if wire.cleanup { TakeBack(up.z); }
        return false;
      }
      remote := remote.(manifests := remote.manifests[up.z := up.manifest]);
      if !wire.meta {
        if wire.cleanup { TakeBack(up.z); }
        return false;
      }
      remote := remote.(metas := remote.metas[up.z := up.meta]);
      return true;
    }

    method TakeBack(z: bytes)
      modifies `remote
      ensures remote == Without(old(remote), z)
    {
      remote := Remote(remote.zips - {z}, remote.manifests - {z}, remote.metas - {z});
    }

    /**
     One run. `written` and `snapshots` only ever grow, so whatever was made before can still
     be restored from what is left of it.
     */
    method Run(forceFull: bool, scan: Scan, skipAccess: bool, read: Reader, wire: Wire, host: bytes, stamp: bytes)
      returns (r: Outcome, ghost deleted: seq<bytes>)
      requires Valid() && DistinctFiles(scan.files) && Steady(content, scan.files, read)
      requires CaseDistinct(Present(disk, scan))
      requires forall kind :: Fresh(written, ZipName(kind, host, stamp))
      modifies this
      ensures Valid() && lost == old(lost)
      ensures KindOf(Start(old(disk), forceFull), old(remote), forceFull) == Incremental ==> forall p ::
        p in deleted <==> IsDeleted(Start(old(disk), forceFull).files, Catalogs(scan.files), scan.unverified, p)
      ensures var idx := Start(old(disk), forceFull);
        var kind := KindOf(idx, old(remote), forceFull);
        var planned := PlannedFor(idx, kind, scan.files);
        r.Made? <==> scan.files != [] && !NothingToDo(idx, kind, scan.files, deleted)
                     && GoodArchive(planned, skipAccess, read, kind, scan.skipped, |scan.files|)
                     && wire.zip && wire.manifest && wire.meta && wire.save
      ensures var idx := Start(old(disk), forceFull);
        r.NoChange? <==> scan.files != [] && NothingToDo(idx, KindOf(idx, old(remote), forceFull), scan.files, deleted)
                         && LastArchiveName(idx) != [] && LastArchiveName(idx) in old(remote).zips
      ensures r.NoChange? ==> r.last == LastArchiveName(disk) && remote == old(remote)
      ensures !r.Made? ==> disk == Start(old(disk), forceFull) && snapshots == old(snapshots)
      ensures !r.Made? && wire.cleanup ==> remote == old(remote)
      ensures var idx := Start(old(disk), forceFull);
        var kind := KindOf(idx, old(remote), forceFull);
        var up := Ready(idx, kind, ZipName(kind, host, stamp), scan, read, deleted);
        r.Made? ==>
          && r == Made(kind, up.z) && snapshots == old(snapshots)[up.z := disk]
          && disk == Updated(idx, kind, up.z, scan.files, up.archived, scan.dirMeta, deleted)
          && remote == Put(old(remote), up.z, up.entries, up.manifest, up.meta)
    {
      hide Within, AllGood, Steady, CaseDistinct, DistinctFiles, Updated, GoodArchive, IsDeleted, Present, Ready,
           NothingToDo, ZipName, Catalogs, Put, KindOf, Planned, LastArchiveName, Archived, Zipped, Kept;
      var idx := if forceFull then EMPTY else disk;
      var prepared, up := Prepare(idx, remote, forceFull, scan, skipAccess, read, host, stamp);
      deleted := up.deleted;
      if prepared.Made? {
        UploadIsGood(content, disk, remote, forceFull, scan, read, host, stamp, deleted, snapshots, written);
        ReadyIs(idx, prepared.kind, prepared.name, scan, read, deleted);
        KindNeedsBase(idx, remote, forceFull);
        NowKept(idx, prepared.kind, scan, up, snapshots, lost, remote);
      }
      disk := idx;
      if !prepared.Made? { return prepared, deleted; }
      var ok := Commit(idx, scan, up, wire);
      return if ok then prepared else Failed, deleted;
    }

    /** Upload, then the new index; a failure anywhere leaves the index as it was. */
    method Commit(idx: Index, scan: Scan, up: Upload, wire: Wire) returns (ok: bool)
      requires Within(remote, written) && Fresh(written, up.z) && disk == idx
      requires idx.baseFull == [] || (LastArchiveName(idx) in snapshots && snapshots[LastArchiveName(idx)] == idx)
      requires AllGood(content, snapshots, Put(written, up.z, up.entries, up.manifest, up.meta))
      requires Kept(snapshots, lost, remote)
      requires var after := Updated(idx, up.kind, up.z, scan.files, up.archived, scan.dirMeta, up.deleted);
        LastArchiveName(after) == up.z
        && AllGood(content, snapshots[up.z := after], Put(written, up.z, up.entries, up.manifest, up.meta))
        && Kept(snapshots[up.z := after], lost, Put(remote, up.z, up.entries, up.manifest, up.meta))
      modifies this
      ensures Valid() && lost == old(lost) && remote == AfterUpload(old(remote), up, wire)
      ensures (ok <==> wire.zip && wire.manifest && wire.meta && wire.save)
      ensures !ok ==> disk == idx && snapshots == old(snapshots)
      ensures ok ==>
        && remote == Put(old(remote), up.z, up.entries, up.manifest, up.meta)
        && snapshots == old(snapshots)[up.z := disk]
        && disk == Updated(idx, up.kind, up.z, scan.files, up.archived, scan.dirMeta, up.deleted)
    {
      hide AllGood, Updated, LastArchiveName, Kept, Within, Without, Put;
      StillKept(snapshots, lost, remote, up, wire);
      WithinAfter(remote, written, up, wire);
      WithoutFresh(remote, written, up);
      ok := Publish(up, wire);
      if !ok { return; }
      var store := new Store(idx);
      store.UpdateStore(up.kind, up.z, scan.files, up.archived, scan.dirMeta, up.deleted);
      if !wire.save {
        if wire.cleanup { TakeBack(up.z); }
        return false;
      }
      disk := store.AsIndex();
      snapshots := snapshots[up.z := disk];
    }

    /**
     Any archive ever made, put together from what the destination still has: if that is
     complete, the view has exactly the paths of the index of that time (those with a safe name),
     each from the archive the index named, and each restores to the bytes the index stood for.
     */
    method Snapshot(ref: bytes) returns (v: Option<View>, meta: map<bytes, Entry>)
      requires Valid() && ref in snapshots
      ensures v.Some? <==> Complete(remote, ref)
      ensures v.Some? ==> Mirrors(v.value, snapshots[ref].files)
      ensures v.Some? ==> meta == if ref in remote.metas then remote.metas[ref] else map[]
      ensures v.Some? ==> RestoresTo(content, remote, v.value, snapshots[ref].files)
      ensures (forall n <- ChainOf(snapshots[ref]) :: n in snapshots)
      ensures (forall n <- ChainOf(snapshots[ref]) :: SafeComponent(n) && n !in lost) ==> v.Some?
    {
      hide Complete, ChainOf, SafeComponent, Replay, Holds, Within, Mirrors, RestoresTo, CaseDistinct,
           IncrementalNames, IsIncrementalArchiveName;
      v, meta := BuildSnapshotView(remote, ref);
      assert Remains(ChainOf(snapshots[ref]), snapshots.Keys, lost, remote);
      if forall n <- ChainOf(snapshots[ref]) :: SafeComponent(n) && n !in lost {
        KeptIsComplete(snapshots[ref], ref, snapshots, lost, remote, written);
      }
      if v.Some? {
        RemainsReplay(snapshots[ref], ref, remote, written);
        ViewRestores(content, snapshots[ref], ref, remote, written, v.value);
      }
    }

    /**
     A run followed by a restore of its archive. There is a view exactly if the chain could be used before the run,
     which it always can where nothing was lost; if the run passed nothing over, it gives back the scanned tree.
     */
    method RunAndRestore(forceFull: bool, scan: Scan, skipAccess: bool, read: Reader, wire: Wire,
                         host: bytes, stamp: bytes)
      returns (r: Outcome, v: Option<View>, meta: map<bytes, Entry>)
      requires Valid() && DistinctFiles(scan.files) && Steady(content, scan.files, read)
      requires CaseDistinct(Present(disk, scan))
      requires forall kind :: Fresh(written, ZipName(kind, host, stamp))
      modifies this
      ensures Valid() && lost == old(lost)
      ensures v.Some? ==> r.Made? && Mirrors(v.value, disk.files)
      ensures r.Made? ==>
        (v.Some? <==> ChainUsable(Start(old(disk), forceFull), r.kind, ZipName(r.kind, host, stamp), old(remote)))
      ensures r.Made? && (forall n <- ChainOf(disk) :: SafeComponent(n) && n !in lost) ==> v.Some?
      ensures v.Some? && scan.unverified == [] && (forall f <- scan.files :: !read(f.catalog).Blocked?) ==>
        disk.files.Keys == Catalogs(scan.files) && RestoresScan(content, remote, v.value, scan.files)
      ensures v.Some? && (forall f <- scan.files :: !read(f.catalog).Blocked?) && HasAllMeta(scan) ==> meta == disk.meta
    {
      hide Within, AllGood, Steady, CaseDistinct, DistinctFiles, Updated, IsDeleted, Present, ZipName, Catalogs,
           LastArchiveName, Mirrors, RestoresTo, RestoresScan, Complete, Seconds, SafeZipEntryName, NothingToDo,
           HasAllMeta, Ready, GoodArchive, KindOf, PlannedFor;
      ghost var idx := Start(disk, forceFull);
      ghost var kind := KindOf(idx, remote, forceFull);
      ghost var deleted;
      ghost var written0, remote0 := written, remote;
      StartsGood(content, disk, remote, forceFull, scan, snapshots, written);
      r, deleted := Run(forceFull, scan, skipAccess, read, wire, host, stamp);
      if !r.Made? { return r, None, map[]; }
      ReadyIs(idx, kind, ZipName(kind, host, stamp), scan, read, deleted);
      ChainIsOlder(idx, kind, ZipName(kind, host, stamp), written0);
      CompleteAfter(idx, kind, scan, read, ZipName(kind, host, stamp), deleted, remote0);
      v, meta := Snapshot(r.name);
      if forall f <- scan.files :: !read(f.catalog).Blocked? {
        NothingPassedOver(idx, kind, r.name, scan, skipAccess, read, deleted);
        if v.Some? && scan.unverified == [] { ScanRestored(content, remote, v.value, disk.files, scan.files); }
      }
    }
  }

  /** A run is incremental only on top of an index that has been saved. */
  lemma KindNeedsBase(idx: Index, remote: Remote, forceFull: bool)
    ensures KindOf(idx, remote, forceFull) == Incremental ==> !forceFull && idx.baseFull != []
  {
  }

  /** A fresh name is in no chain made before. */
  lemma ChainIsOlder(idx: Index, kind: Kind, z: bytes, w: Remote)
    requires Fresh(w, z) && (kind == Incremental ==> SnapshotOf(idx, LastArchiveName(idx), w))
    ensures kind == Incremental ==> z !in ChainOf(idx)
  {
    hide ChainOf, Replay, Mirrors, CaseDistinct;
  }

  lemma ScanRestored(content: Oracle, remote: Remote, v: View, files: map<bytes, Rec>, fs: seq<LocalFile>)
    requires RestoresTo(content, remote, v, files) && StandsFor(files, fs)
    ensures RestoresScan(content, remote, v, fs)
  {
    hide RestoreFile, SafeZipEntryName, Seconds;
  }

  /** The index has the path, size and time of these files, and no others. */
  predicate StandsFor(files: map<bytes, Rec>, fs: seq<LocalFile>) {
    && files.Keys == Catalogs(fs)
    && forall f <- fs :: files[f.catalog].size == f.size && Seconds(files[f.catalog].mtime) == Seconds(f.mtime)
  }

  /** What a run records when every file it planned could be read. */
  lemma NothingPassedOver(idx: Index, kind: Kind, z: bytes, scan: Scan, skipAccess: bool, read: Reader,
                          deleted: seq<bytes>)
    requires DistinctFiles(scan.files) && CaseDistinct(Present(idx, scan))
    requires forall f <- scan.files :: !read(f.catalog).Blocked?
    requires GoodArchive(PlannedFor(idx, kind, scan.files), skipAccess, read, kind, scan.skipped, |scan.files|)
    requires kind == Incremental ==> forall p ::
      p in deleted <==> IsDeleted(idx.files, Catalogs(scan.files), scan.unverified, p)
    ensures var up := Ready(idx, kind, z, scan, read, deleted);
      var after := Updated(idx, kind, z, scan.files, up.archived, scan.dirMeta, deleted);
      && (HasAllMeta(scan) ==> up.meta == after.meta)
      && (scan.unverified == [] ==> StandsFor(after.files, scan.files))
  {
    hide CaseDistinct, DistinctFiles, Updated, IsDeleted, Present, Catalogs, Zipped, Archived, Unread, Planned, Listed,
         CanZip, Seconds, HasAllMeta, SnapshotMeta, SignificantSkips;
    var planned := PlannedFor(idx, kind, scan.files);
    NothingUnread(idx, kind, scan.files, read);
    if HasAllMeta(scan) {
      SidecarMatches(idx, kind, z, scan, read, deleted);
    }
    if scan.unverified == [] {
      IndexIsTheScan(idx, kind, z, scan, planned, read, deleted);
    }
  }

  /** Metadata was captured for every file and directory. */
  predicate HasAllMeta(scan: Scan) {
    (forall f <- scan.files :: f.meta.HasMeta()) && (forall d <- scan.dirMeta :: scan.dirMeta[d].HasMeta())
  }

  lemma SidecarMatches(idx: Index, kind: Kind, z: bytes, scan: Scan, read: Reader, deleted: seq<bytes>)
    requires DistinctFiles(scan.files) && HasAllMeta(scan)
    requires PlannedFilesArchived(PlannedFor(idx, kind, scan.files),
                                  Listed(Zipped(PlannedFor(idx, kind, scan.files), read)), [])
    requires kind == Incremental ==> forall p <- deleted ::
      IsDeleted(idx.files, Catalogs(scan.files), scan.unverified, p)
    ensures var up := Ready(idx, kind, z, scan, read, deleted);
      up.meta == Updated(idx, kind, z, scan.files, up.archived, scan.dirMeta, deleted).meta
  {
    hide DistinctFiles, Zipped, Archived, Planned, SnapshotMeta, Updated, Listed, UnderUnverifiedDir, Catalogs;
    var planned := PlannedFor(idx, kind, scan.files);
    DistinctPlan(idx, kind, scan.files);
    AllArchived(planned, read);
    var gone := if kind == Full then [] else deleted;
    SidecarIsMeta(idx, kind, z, scan.files, planned, scan.dirMeta, gone);
    if kind == Full { FullIgnoresDeleted(idx, z, scan, planned, deleted); }
  }

  lemma FullIgnoresDeleted(idx: Index, z: bytes, scan: Scan, archived: seq<LocalFile>, deleted: seq<bytes>)
    ensures SnapshotMeta(idx, Full, scan.files, archived, scan.dirMeta, deleted)
         == SnapshotMeta(idx, Full, scan.files, archived, scan.dirMeta, [])
    ensures Updated(idx, Full, z, scan.files, archived, scan.dirMeta, deleted)
         == Updated(idx, Full, z, scan.files, archived, scan.dirMeta, [])
  {
  }

  lemma NothingUnread(idx: Index, kind: Kind, fs: seq<LocalFile>, read: Reader)
    requires DistinctFiles(fs) && forall f <- fs :: !read(f.catalog).Blocked?
    ensures Unread(PlannedFor(idx, kind, fs), read) == []
  {
    hide Planned, DistinctFiles;
    PlannedAre(idx.files, fs);
    NoneUnread(PlannedFor(idx, kind, fs), read);
  }

  lemma {:induction false} NoneUnread(planned: seq<LocalFile>, read: Reader)
    requires forall f <- planned :: !read(f.catalog).Blocked?
    ensures Unread(planned, read) == []
  {
    if planned != [] {
      NoneUnread(planned[1..], read);
    }
  }
}
