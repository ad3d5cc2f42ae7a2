/** Every file the stream index lists is what random access extracts under the same path, and conversely. */
module PxarAgreement {
  import opened Bytes
  import opened PxarFormat
  import opened Paths
  import opened PxarRead
  import opened PxarLookupTheorem

  predicate PlainName(name: bytes) {
    name != [] && BACKSLASH !in name && SLASH !in name
  }

  predicate PlainNames(s: Siblings) {
    match s
    case End => true
    case File(name, _, _, _, next) => PlainName(name) && PlainNames(next)
    case Dir(name, _, _, kids, _, next) => PlainName(name) && PlainNames(kids) && PlainNames(next)
  }

  lemma {:induction false} SplitPlain(name: bytes)
    requires BACKSLASH !in name
    ensures Split(name) == [name]
    decreases |name|
  {
    if name != [] {
      SplitPlain(name[1..]);
      assert [name[0]] + name[1..] == name;
    }
  }

  lemma {:induction false} SplitSnoc(dir: bytes, name: bytes)
    requires BACKSLASH !in name
    ensures Split(dir + [BACKSLASH] + name) == Split(dir) + [name]
    decreases |dir|
  {
    var p := dir + [BACKSLASH] + name;
    if dir == [] {
      assert p[1..] == name;
      SplitPlain(name);
    } else {
      assert p[1..] == dir[1..] + [BACKSLASH] + name;
      SplitSnoc(dir[1..], name);
    }
  }

  function Parts(dir: bytes): seq<bytes> {
    if dir == [] then [] else Split(dir)
  }

  lemma PartsOfJoin(dir: bytes, name: bytes)
    requires PlainName(name)
    ensures Split(Join(dir, name)) == Parts(dir) + [name]
  {
    hide Split;
    if dir == [] { SplitPlain(name); } else { SplitSnoc(dir, name); }
  }

  /** What follows the first `k` parts of a path. */
  predicate Leads(hashOf: bytes -> nat, s: Siblings, dir: bytes, f: Located) {
    var parts, k := Split(f.path), |Parts(dir)|;
    && k < |parts| && parts[..k] == Parts(dir) && parts[|parts| - 1] != []
    && Resolve(hashOf, s, parts[k..]) == Ok(f.data)
  }

  lemma {:induction false} DistinctFromFirst(hashOf: bytes -> nat, s: Siblings, h: nat)
    requires s != End && DistinctHashes(hashOf, s) && ChildWith(hashOf, s.next, h) != End
    ensures ChildWith(hashOf, s, h) == ChildWith(hashOf, s.next, h)
  {
    hide DistinctHashes;
    if hashOf(s.name) == h {
      FirstIsAlone(hashOf, s);
    }
  }

  lemma FirstIsAlone(hashOf: bytes -> nat, s: Siblings)
    requires s != End && DistinctHashes(hashOf, s)
    ensures ChildWith(hashOf, s.next, hashOf(s.name)) == End
  {
  }

  lemma {:induction false} FilesLead(hashOf: bytes -> nat, s: Siblings, dir: bytes, off: nat, f: Located)
    requires f in Files(s, dir, off) && PlainNames(s) && DistinctHashes(hashOf, s) && GoodTables(hashOf, s)
    ensures Leads(hashOf, s, dir, f)
    decreases s
  {
    hide ToLE, FromLE, Head, Block, GoodbyeBlock, Split, TableOf, Parts, PlainName, EqualFold, Join, Encode;
    match s
    case File(name, mode, extra, data, next) =>
      PartsOfJoin(dir, name);
      PlainIsNotEmpty(name);
      if f != Files(s, dir, off)[0] {
        FilesLead(hashOf, next, dir, off + |Head(name, mode, extra)| + 16 + |data|, f);
        DistinctFromFirst(hashOf, s, hashOf(Split(f.path)[|Parts(dir)|]));
      }
    case Dir(name, mode, extra, kids, table, next) =>
      var at := off + |Head(name, mode, extra)|;
      PartsOfJoin(dir, name);
      JoinParts(dir, name);
      if f in Files(kids, Join(dir, name), at) {
        FilesLead(hashOf, kids, Join(dir, name), at, f);
        var parts, k := Split(f.path), |Parts(dir)|;
        assert parts[..k + 1] == Parts(dir) + [name];
        assert parts[k..][1..] == parts[k + 1..] && parts[k] == name;
        assert parts[..k] == parts[..k + 1][..k];
      } else {
        FilesLead(hashOf, next, dir, at + |Encode(kids)| + |GoodbyeBlock(table)|, f);
        DistinctFromFirst(hashOf, s, hashOf(Split(f.path)[|Parts(dir)|]));
      }
  }

  lemma PlainIsNotEmpty(name: bytes)
    requires PlainName(name)
    ensures name != [] && EqualFold(name, name)
  {
  }

  lemma JoinParts(dir: bytes, name: bytes)
    requires PlainName(name)
    ensures Parts(Join(dir, name)) == Split(Join(dir, name)) && EqualFold(name, name)
  {
  }

  /** Paths of plain names are already normal. */
  lemma {:induction false} FilePathsAreNormal(s: Siblings, dir: bytes, off: nat, f: Located)
    requires f in Files(s, dir, off) && PlainNames(s) && SLASH !in dir && (dir != [] ==> dir[0] != BACKSLASH)
    ensures SLASH !in f.path && f.path != [] && f.path[0] != BACKSLASH
    decreases s
  {
    hide ToLE, FromLE, Head, Block, GoodbyeBlock;
    match s
    case File(name, mode, extra, data, next) =>
      if f != Files(s, dir, off)[0] {
        FilePathsAreNormal(next, dir, off + |Head(name, mode, extra)| + 16 + |data|, f);
      }
    case Dir(name, mode, extra, kids, table, next) =>
      var at := off + |Head(name, mode, extra)|;
      if f in Files(kids, Join(dir, name), at) {
        FilePathsAreNormal(kids, Join(dir, name), at, f);
      } else {
        FilePathsAreNormal(next, dir, at + |Encode(kids)| + |GoodbyeBlock(table)|, f);
      }
  }

  lemma NormalStays(p: bytes)
    requires SLASH !in p && p != [] && p[0] != BACKSLASH
    ensures NormalizeRestorePath(p) == p
  {
    assert Backslashed(p) == p;
  }

  /** The stream's list of files and random access agree: each listed file is extracted whole. */
  lemma ListedFilesAreExtracted(hashOf: bytes -> nat, a: Archive, f: Located)
    requires WellFormedArchive(a) && |EncodeArchive(a)| <= MAX_INT && GoodArchiveTables(hashOf, a)
    requires PlainNames(a.kids) && f in ArchiveFiles(a)
    ensures ExtractFile(hashOf, EncodeArchive(a), f.path) == Ok(f.data)
  {
    hide ToLE, FromLE, Encode, EncodeArchive, Files, TableOf, GoodTables, FindInPxar, Resolve, DistinctHashes,
         PlainNames, Split, EntryBlock, NormalizeRestorePath;
    FilesLead(hashOf, a.kids, [], |EntryBlock(a.mode, a.extra)|, f);
    FilePathsAreNormal(a.kids, [], |EntryBlock(a.mode, a.extra)|, f);
    NormalStays(f.path);
    var parts := Split(f.path);
    assert parts[0..] == parts;
    RandomAccessIsExact(hashOf, a, parts);
  }

  function JoinAll(dir: bytes, names: seq<bytes>): bytes
    decreases |names|
  {
    if names == [] then dir else JoinAll(Join(dir, names[0]), names[1..])
  }

  /** Conversely, whatever is extracted is the data of a listed file of that path, up to case. */
  lemma {:induction false} ExtractedIsListed(hashOf: bytes -> nat, s: Siblings, dir: bytes, query: bytes,
                                             off: nat, path: seq<bytes>)
    requires Resolve(hashOf, s, path).Ok? && EqualFold(dir, query) && WellFormed(s) && [] !in path
    ensures exists f <- Files(s, dir, off) ::
      f.data == Resolve(hashOf, s, path).value && EqualFold(f.path, JoinAll(query, path))
    decreases s
  {
    hide ToLE, FromLE, Head, Block, GoodbyeBlock, EqualFold, Join, Encode, IsDirMode, Files, JoinAll;
    if hashOf(s.name) != hashOf(path[0]) {
      var at := if s.File? then off + |Head(s.name, s.mode, s.extra)| + 16 + |s.data|
                else off + |Head(s.name, s.mode, s.extra)| + |Encode(s.kids)| + |GoodbyeBlock(s.table)|;
      ResolveNext(hashOf, s, path);
      ExtractedIsListed(hashOf, s.next, dir, query, at, path);
      FilesOfNext(s, dir, off);
      AmongMore(Files(s.next, dir, at), Files(s, dir, off), Resolve(hashOf, s, path).value, JoinAll(query, path));
    } else if s.File? {
      JoinFolds(dir, query, s.name, path[0]);
      FileIsListed(hashOf, s, dir, query, off, path);
    } else {
      var at := off + |Head(s.name, s.mode, s.extra)|;
      JoinFolds(dir, query, s.name, path[0]);
      ResolveKids(hashOf, s, path);
      ExtractedIsListed(hashOf, s.kids, Join(dir, s.name), Join(query, path[0]), at, path[1..]);
      FilesOfDir(s, dir, off);
      JoinAllNext(query, path);
      AmongMore(Files(s.kids, Join(dir, s.name), at), Files(s, dir, off), Resolve(hashOf, s, path).value,
                JoinAll(query, path));
    }
  }

  lemma AmongMore(some: seq<Located>, all: seq<Located>, data: bytes, path: bytes)
    requires exists f <- some :: f.data == data && EqualFold(f.path, path)
    requires forall f <- some :: f in all
    ensures exists f <- all :: f.data == data && EqualFold(f.path, path)
  {
    hide EqualFold;
  }

  lemma FileIsListed(hashOf: bytes -> nat, s: Siblings, dir: bytes, query: bytes, off: nat, path: seq<bytes>)
    requires s.File? && path != [] && hashOf(s.name) == hashOf(path[0]) && Resolve(hashOf, s, path).Ok?
    requires EqualFold(s.name, path[0]) ==> EqualFold(Join(dir, s.name), Join(query, path[0]))
    ensures exists f <- Files(s, dir, off) ::
      f.data == Resolve(hashOf, s, path).value && EqualFold(f.path, JoinAll(query, path))
  {
    hide EqualFold, Join, Head;
    JoinAllOne(query, path);
    assert Files(s, dir, off)[0] in Files(s, dir, off);
  }

  lemma FilesOfDir(s: Siblings, dir: bytes, off: nat)
    requires s.Dir?
    ensures forall f <- Files(s.kids, Join(dir, s.name), off + |Head(s.name, s.mode, s.extra)|) ::
      f in Files(s, dir, off)
  {
    hide Head, GoodbyeBlock, Join, Encode;
  }

  lemma FilesOfNext(s: Siblings, dir: bytes, off: nat)
    requires s != End
    ensures var at := if s.File? then off + |Head(s.name, s.mode, s.extra)| + 16 + |s.data|
                      else off + |Head(s.name, s.mode, s.extra)| + |Encode(s.kids)| + |GoodbyeBlock(s.table)|;
      forall f <- Files(s.next, dir, at) :: f in Files(s, dir, off)
  {
    hide Head, GoodbyeBlock, Join, Encode;
  }

  lemma ResolveKids(hashOf: bytes -> nat, s: Siblings, path: seq<bytes>)
    requires s.Dir? && path != [] && hashOf(s.name) == hashOf(path[0]) && Resolve(hashOf, s, path).Ok?
    ensures |path| > 1 && Resolve(hashOf, s, path) == Resolve(hashOf, s.kids, path[1..])
  {
    hide EqualFold;
  }

  lemma JoinAllNext(query: bytes, path: seq<bytes>)
    requires path != []
    ensures JoinAll(query, path) == JoinAll(Join(query, path[0]), path[1..])
  {
    hide Join;
  }

  lemma ResolveNext(hashOf: bytes -> nat, s: Siblings, path: seq<bytes>)
    requires s != End && path != [] && hashOf(s.name) != hashOf(path[0])
    ensures Resolve(hashOf, s, path) == Resolve(hashOf, s.next, path)
  {
    hide EqualFold;
  }

  lemma JoinAllOne(query: bytes, path: seq<bytes>)
    requires path != []
    ensures |path| == 1 ==> JoinAll(query, path) == Join(query, path[0])
  {
    hide Join;
  }

  lemma JoinFolds(a: bytes, b: bytes, x: bytes, y: bytes)
    requires EqualFold(a, b) && |x| > 0
    ensures EqualFold(x, y) ==> EqualFold(Join(a, x), Join(b, y))
  {
    if EqualFold(x, y) {
      assert |Lower(a)| == |a| && |Lower(b)| == |b|;
      assert Lower(a + [BACKSLASH] + x) == Lower(a) + [BACKSLASH] + Lower(x);
      assert Lower(b + [BACKSLASH] + y) == Lower(b) + [BACKSLASH] + Lower(y);
    }
  }

  // The same of the archive and the path string that was asked for.

  /** A path that resolves has no empty part, since no entry has an empty name. */
  lemma {:induction false} ResolvedHasNames(hashOf: bytes -> nat, s: Siblings, path: seq<bytes>)
    requires Resolve(hashOf, s, path).Ok? && WellFormed(s)
    ensures path != [] && [] !in path
    decreases s
  {
    hide EqualFold, IsDirMode;
    if hashOf(s.name) != hashOf(path[0]) {
      ResolveNext(hashOf, s, path);
      ResolvedHasNames(hashOf, s.next, path);
    } else {
      FoldsToName(s.name, path[0]);
      if s.Dir? {
        ResolveKids(hashOf, s, path);
        ResolvedHasNames(hashOf, s.kids, path[1..]);
        assert path == [path[0]] + path[1..];
      }
    }
  }

  lemma FoldsToName(name: bytes, part: bytes)
    requires name != []
    ensures EqualFold(name, part) ==> part != []
  {
    assert |Lower(name)| == |name| && |Lower(part)| == |part|;
  }

  /** The inverse of `Split`. */
  function Glued(parts: seq<bytes>): bytes {
    if parts == [] then [] else if |parts| == 1 then parts[0] else parts[0] + [BACKSLASH] + Glued(parts[1..])
  }

  lemma {:induction false} GluedSplit(p: bytes)
    ensures Glued(Split(p)) == p
    decreases |p|
  {
    if p != [] {
      GluedSplit(p[1..]);
      var more := Split(p[1..]);
      assert p == [p[0]] + p[1..];
      if p[0] == BACKSLASH {
        assert Split(p)[1..] == more;
        assert [] + [BACKSLASH] + p[1..] == [BACKSLASH] + p[1..];
      } else if |more| > 1 {
        assert Split(p)[1..] == more[1..];
        assert [p[0]] + (more[0] + [BACKSLASH] + Glued(more[1..])) == [p[0]] + more[0] + [BACKSLASH] + Glued(more[1..]);
      }
    }
  }

  lemma {:induction false} GluedSnoc(parts: seq<bytes>)
    requires |parts| > 1 && parts[|parts| - 1] == []
    ensures Glued(parts) == Glued(parts[..|parts| - 1]) + [BACKSLASH]
    decreases |parts|
  {
    var init := parts[..|parts| - 1];
    if |parts| == 2 {
      assert parts[0] + [BACKSLASH] + [] == parts[0] + [BACKSLASH];
    } else {
      GluedSnoc(parts[1..]);
      assert parts[1..][..|parts| - 2] == init[1..];
      assert parts[0] + [BACKSLASH] + (Glued(init[1..]) + [BACKSLASH])
          == parts[0] + [BACKSLASH] + Glued(init[1..]) + [BACKSLASH];
    }
  }

  lemma {:induction false} JoinAllIsGlued(dir: bytes, names: seq<bytes>)
    requires [] !in names && names != []
    ensures JoinAll(dir, names) == if dir == [] then Glued(names) else dir + [BACKSLASH] + Glued(names)
    decreases |names|
  {
    if |names| == 1 {
      JoinAllOne(dir, names);
    } else {
      JoinAllNext(dir, names);
      JoinAllIsGlued(Join(dir, names[0]), names[1..]);
      var a, b := names[0] + [BACKSLASH], Glued(names[1..]);
      assert dir + [BACKSLASH] + names[0] + [BACKSLASH] + b == dir + [BACKSLASH] + (a + b);
    }
  }

  function WithoutFinalSlash(p: bytes): bytes {
    if p != [] && p[|p| - 1] == BACKSLASH then p[..|p| - 1] else p
  }

  /** The parts an extraction goes by, when none is empty, joined are the normal path without a final backslash. */
  lemma PartsOfQuery(p: bytes, parts: seq<bytes>)
    requires var all := Split(p); parts == if all[|all| - 1] == [] then all[..|all| - 1] else all
    requires [] !in parts && parts != []
    ensures JoinAll([], parts) == WithoutFinalSlash(p)
  {
    hide Split, JoinAll, Glued;
    var all := Split(p);
    var last := all[|all| - 1];
    GluedSplit(p);
    JoinAllIsGlued([], parts);
    if last == [] {
      GluedSnoc(all);
      assert (Glued(parts) + [BACKSLASH])[..|Glued(parts)|] == Glued(parts);
    } else {
      LastOfGlued(all);
      NoSlashInParts(p);
      assert last in all && last[|last| - 1] in last;
    }
  }

  lemma {:induction false} LastOfGlued(parts: seq<bytes>)
    requires parts != [] && parts[|parts| - 1] != []
    ensures var g, last := Glued(parts), parts[|parts| - 1];
      g != [] && g[|g| - 1] == last[|last| - 1]
    decreases |parts|
  {
    if |parts| > 1 {
      LastOfGlued(parts[1..]);
    }
  }

  lemma {:induction false} NoSlashInParts(p: bytes)
    ensures forall part <- Split(p) :: BACKSLASH !in part
    decreases |p|
  {
    if p != [] {
      NoSlashInParts(p[1..]);
      var more := Split(p[1..]);
      assert more[0] in more;
    }
  }

  /** Whatever path string is asked for, what is extracted is a listed file of that path, letter case aside. */
  lemma OnlyListedIsExtracted(hashOf: bytes -> nat, a: Archive, query: bytes)
    requires WellFormedArchive(a) && |EncodeArchive(a)| <= MAX_INT && GoodArchiveTables(hashOf, a)
    requires ExtractFile(hashOf, EncodeArchive(a), query).Ok?
    ensures exists f <- ArchiveFiles(a) ::
      f.data == ExtractFile(hashOf, EncodeArchive(a), query).value
      && EqualFold(f.path, WithoutFinalSlash(NormalizeRestorePath(query)))
  {
    hide ToLE, FromLE, Encode, EncodeArchive, Files, TableOf, GoodTables, Resolve, DistinctHashes, Split, EntryBlock,
         NormalizeRestorePath, EqualFold, JoinAll, WithoutFinalSlash, IsDirMode;
    var p := NormalizeRestorePath(query);
    var all := Split(p);
    var parts := if all[|all| - 1] == [] then all[..|all| - 1] else all;
    if parts == [] {
      NothingToFind(hashOf, EncodeArchive(a));
    } else {
      RandomAccessIsExact(hashOf, a, parts);
      ResolvedHasNames(hashOf, a.kids, parts);
      PartsOfQuery(p, parts);
      assert EqualFold([], []) by { SameFold([]); }
      ExtractedIsListed(hashOf, a.kids, [], [], |EntryBlock(a.mode, a.extra)|, parts);
    }
  }

  lemma SameFold(s: bytes)
    ensures EqualFold(s, s)
  {
  }

  lemma NothingToFind(hashOf: bytes -> nat, data: bytes)
    ensures FindInPxar(hashOf, data, 0, []).Err?
  {
  }
}
