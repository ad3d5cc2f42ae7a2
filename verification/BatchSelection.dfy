/** Which files a restore of several selected files and folders covers. */
module BatchSelection {
  import opened Bytes
  import opened Options
  import opened Paths
  import opened PxarFormat

  datatype CatalogFile = CatalogFile(path: bytes, isDir: bool)

  function DropSuffix(s: bytes, b: byte): bytes {
    if s != [] && s[|s| - 1] == b then s[..|s| - 1] else s
  }

  function FolderPrefix(p: bytes): bytes {
    Lower(Backslashed(DropSuffix(DropSuffix(TrimSpace(p), BACKSLASH), SLASH)))
  }

  predicate UnderPrefix(path: bytes, prefix: bytes) {
    Lower(Backslashed(path)) == prefix || prefix + [BACKSLASH] <= Lower(Backslashed(path))
  }

  predicate IsFolderSelection(sel: bytes, catalog: seq<CatalogFile>) {
    exists f <- catalog :: !f.isDir && UnderPrefix(f.path, FolderPrefix(sel)) && !EqualFold(f.path, sel)
  }

  /** Another selection with a shorter prefix has the file already. */
  predicate Covered(path: bytes, sel: bytes, all: seq<bytes>) {
    exists other <- all ::
      !EqualFold(other, sel) && |FolderPrefix(other)| < |FolderPrefix(sel)| && UnderPrefix(path, FolderPrefix(other))
  }

  predicate HasFile(catalog: seq<CatalogFile>, key: bytes) {
    exists f <- catalog :: !f.isDir && Lower(f.path) == key
  }

  /** The selections without blank ones and repetitions. */
  function Norms(paths: seq<bytes>): (r: seq<bytes>) {
    if paths == [] then [] else
      var init, p := Norms(paths[..|paths| - 1]), TrimSpace(paths[|paths| - 1]);
      if p == [] || (exists q <- init :: EqualFold(q, p)) then init else init + [p]
  }

  method NormalizePaths(paths: seq<bytes>) returns (norm: seq<bytes>)
    ensures norm == Norms(paths)
  {
    hide TrimSpace, Lower;
    norm := [];
    var seen: set<bytes> := {};
    for i := 0 to |paths|
      invariant norm == Norms(paths[..i]) && seen == set q <- norm :: Lower(q)
    {
      assert paths[..i + 1][..i] == paths[..i];
      var p := TrimSpace(paths[i]);
      if p != [] && Lower(p) !in seen {
        seen := seen + {Lower(p)};
        norm := norm + [p];
      }
    }
    assert paths[..|paths|] == paths;
  }

  /** A stable place for one selection among those with shorter or equal prefixes. */
  function Inserted(sorted: seq<bytes>, p: bytes): (r: seq<bytes>)
    ensures forall x :: x in r <==> x in sorted || x == p
  {
    if sorted != [] && |FolderPrefix(p)| < |FolderPrefix(sorted[|sorted| - 1])|
    then Inserted(sorted[..|sorted| - 1], p) + [sorted[|sorted| - 1]]
    else sorted + [p]
  }

  function ByPrefix(paths: seq<bytes>): (r: seq<bytes>)
    ensures forall x :: x in r <==> x in paths
  {
    if paths == [] then [] else Inserted(ByPrefix(paths[..|paths| - 1]), paths[|paths| - 1])
  }

  // What one selection contributes.

  predicate FolderPicks(catalog: seq<CatalogFile>, all: seq<bytes>, sel: bytes, key: bytes) {
    exists f <- catalog ::
      !f.isDir && Lower(f.path) == key && UnderPrefix(f.path, FolderPrefix(sel)) && !Covered(f.path, sel, all)
  }

  predicate Picks(catalog: seq<CatalogFile>, all: seq<bytes>, sel: bytes, key: bytes) {
    if IsFolderSelection(sel, catalog) then FolderPicks(catalog, all, sel, key)
    else key == Lower(sel) && !Covered(sel, sel, all)
  }

  /** The keys of these targets, and no two of them the same. */
  ghost predicate Keyed(targets: seq<bytes>, keys: set<bytes>) {
    && keys == (set t <- targets :: Lower(t))
    && forall i, j | 0 <= i < j < |targets| :: Lower(targets[i]) != Lower(targets[j])
  }

  lemma OneMoreTarget(targets: seq<bytes>, keys: set<bytes>, t: bytes)
    requires Keyed(targets, keys) && Lower(t) !in keys
    ensures Keyed(targets + [t], keys + {Lower(t)})
  {
    hide Lower;
    forall i, j | 0 <= i < j < |targets| + 1
      ensures Lower((targets + [t])[i]) != Lower((targets + [t])[j])
    {
      assert targets[i] in targets;
    }
  }

  method AddFolder(catalog: seq<CatalogFile>, all: seq<bytes>, sel: bytes, targets0: seq<bytes>, keys0: set<bytes>)
    returns (targets: seq<bytes>, keys: set<bytes>)
    requires Keyed(targets0, keys0)
    ensures Keyed(targets, keys)
    ensures forall k :: k in keys <==> k in keys0 || FolderPicks(catalog, all, sel, k)
  {
    hide Keyed, Lower, UnderPrefix, Covered, FolderPrefix;
    targets, keys := targets0, keys0;
    var prefix := FolderPrefix(sel);
    for i := 0 to |catalog|
      invariant Keyed(targets, keys)
      invariant forall k :: k in keys <==> k in keys0 || FolderPicks(catalog[..i], all, sel, k)
    {
      var f := catalog[i];
      ghost var more := catalog[..i + 1];
      assert more == catalog[..i] + [f];
      assert forall k :: FolderPicks(more, all, sel, k)
                    <==> FolderPicks(catalog[..i], all, sel, k) || FolderPicks([f], all, sel, k);
      if !f.isDir && UnderPrefix(f.path, prefix) && !Covered(f.path, sel, all) {
        assert f in [f];
        var key := Lower(f.path);
        if key !in keys {
          OneMoreTarget(targets, keys, f.path);
          targets, keys := targets + [f.path], keys + {key};
        }
      }
    }
    assert catalog[..|catalog|] == catalog;
  }

  method IndexFiles(catalog: seq<CatalogFile>) returns (filesByPath: map<bytes, CatalogFile>)
    ensures forall k :: k in filesByPath <==> HasFile(catalog, k)
    ensures forall k <- filesByPath :: Lower(filesByPath[k].path) == k
  {
    hide Lower;
    filesByPath := map[];
    for i := 0 to |catalog|
      invariant forall k :: k in filesByPath <==> HasFile(catalog[..i], k)
      invariant forall k <- filesByPath :: Lower(filesByPath[k].path) == k
    {
      assert catalog[..i + 1] == catalog[..i] + [catalog[i]];
      if !catalog[i].isDir { filesByPath := filesByPath[Lower(catalog[i].path) := catalog[i]]; }
    }
    assert catalog[..|catalog|] == catalog;
  }

  // The selection as a whole.

  /** Some selection is this file or a folder above it. */
  predicate Selected(catalog: seq<CatalogFile>, sels: seq<bytes>, key: bytes) {
    exists f <- catalog, sel <- sels :: !f.isDir && Lower(f.path) == key && UnderPrefix(f.path, FolderPrefix(sel))
  }

  /** Every selection is a file of the catalog or a folder with files in it. */
  predicate AllKnown(catalog: seq<CatalogFile>, sels: seq<bytes>) {
    forall sel <- sels :: IsFolderSelection(sel, catalog) || HasFile(catalog, Lower(sel))
  }

  /** No file of the catalog ends in a slash. */
  predicate PlainFiles(catalog: seq<CatalogFile>) {
    forall f <- catalog | !f.isDir && f.path != [] :: f.path[|f.path| - 1] != SLASH && f.path[|f.path| - 1] != BACKSLASH
  }

  lemma {:induction false} TrimTwice(s: bytes)
    ensures TrimSpace(TrimSpace(s)) == TrimSpace(s)
    decreases |s|
  {
    if s != [] {
      if IsSpace(s[0]) { TrimTwice(s[1..]); } else if IsSpace(s[|s| - 1]) { TrimTwice(s[..|s| - 1]); }
    }
  }

  lemma {:induction false} NormsAreTrimmed(paths: seq<bytes>)
    ensures forall q <- Norms(paths) :: TrimSpace(q) == q
    decreases |paths|
  {
    hide TrimSpace, EqualFold;
    if paths != [] {
      NormsAreTrimmed(paths[..|paths| - 1]);
      TrimTwice(paths[|paths| - 1]);
    }
  }

  lemma SameSlashes(a: bytes, b: bytes)
    requires Lower(a) == Lower(b)
    ensures Lower(Backslashed(a)) == Lower(Backslashed(b))
    ensures a != [] ==> b != [] && (a[|a| - 1] == SLASH <==> b[|b| - 1] == SLASH)
                        && (a[|a| - 1] == BACKSLASH <==> b[|b| - 1] == BACKSLASH)
  {
    forall i | 0 <= i < |a|
      ensures Lower(Backslashed(a))[i] == Lower(Backslashed(b))[i]
      ensures (a[i] == SLASH <==> b[i] == SLASH) && (a[i] == BACKSLASH <==> b[i] == BACKSLASH)
    {
      assert Lower(a)[i] == Lower(b)[i];
    }
  }

  /** Going to ever shorter covering prefixes ends at one that nothing covers. */
  lemma {:induction false} Uncovered(path: bytes, sel: bytes, all: seq<bytes>)
    requires sel in all && UnderPrefix(path, FolderPrefix(sel))
    ensures exists top <- all :: UnderPrefix(path, FolderPrefix(top)) && !Covered(path, top, all)
    decreases |FolderPrefix(sel)|
  {
    hide UnderPrefix, FolderPrefix, EqualFold;
    if Covered(path, sel, all) {
      var other :| other in all && !EqualFold(other, sel) && |FolderPrefix(other)| < |FolderPrefix(sel)|
        && UnderPrefix(path, FolderPrefix(other));
      Uncovered(path, other, all);
    }
  }

  /** The file a selection names is under that selection's prefix. */
  lemma NamedIsUnder(path: bytes, sel: bytes)
    requires Lower(path) == Lower(sel) && TrimSpace(sel) == sel
    requires path != [] ==> path[|path| - 1] != SLASH && path[|path| - 1] != BACKSLASH
    ensures UnderPrefix(path, FolderPrefix(sel))
  {
    hide TrimSpace, Lower, Backslashed;
    SameSlashes(path, sel);
    SameLength(path, sel);
  }

  lemma SameLength(a: bytes, b: bytes)
    requires Lower(a) == Lower(b)
    ensures |a| == |b|
  {
    assert |Lower(a)| == |a| && |Lower(b)| == |b|;
  }

  /** Although covered files are left to shorter selections, nothing is lost and nothing added. */
  lemma PicksAreSelected(catalog: seq<CatalogFile>, all: seq<bytes>, key: bytes)
    requires AllKnown(catalog, all) && PlainFiles(catalog) && forall sel <- all :: TrimSpace(sel) == sel
    ensures (exists sel <- all :: Picks(catalog, all, sel, key)) <==> Selected(catalog, all, key)
  {
    hide TrimSpace, Lower, Backslashed, UnderPrefix, FolderPrefix, Covered;
    if Selected(catalog, all, key) {
      var f, sel :| f in catalog && sel in all && !f.isDir && Lower(f.path) == key
        && UnderPrefix(f.path, FolderPrefix(sel));
      Uncovered(f.path, sel, all);
      var top :| top in all && UnderPrefix(f.path, FolderPrefix(top)) && !Covered(f.path, top, all);
      if !IsFolderSelection(top, catalog) {
        assert EqualFold(f.path, top);
        SameCover(f.path, top, top, all);
      }
      assert Picks(catalog, all, top, key);
    }
    forall sel <- all | Picks(catalog, all, sel, key)
      ensures Selected(catalog, all, key)
    {
      if !IsFolderSelection(sel, catalog) {
        var f :| f in catalog && !f.isDir && Lower(f.path) == Lower(sel);
        NamedIsUnder(f.path, sel);
      }
    }
  }

  lemma SameCover(a: bytes, b: bytes, sel: bytes, all: seq<bytes>)
    requires Lower(a) == Lower(b)
    ensures Covered(a, sel, all) == Covered(b, sel, all)
  {
    hide Lower, Backslashed, FolderPrefix;
    SameSlashes(a, b);
  }

  /**
   The targets are exactly the selected files, each once; the call fails exactly when
   nothing is selected or some selection is neither a file nor a folder with files.
   */
  method CollectBatchTargets(catalog: seq<CatalogFile>, paths: seq<bytes>) returns (r: Option<seq<bytes>>)
    ensures r.Some? <==> Norms(paths) != [] && AllKnown(catalog, Norms(paths))
    ensures r.Some? ==> forall i, j | 0 <= i < j < |r.value| :: Lower(r.value[i]) != Lower(r.value[j])
    ensures r.Some? && PlainFiles(catalog) ==>
      forall key :: (exists t <- r.value :: Lower(t) == key) <==> Selected(catalog, Norms(paths), key)
  {
    hide TrimSpace, Lower, UnderPrefix, FolderPrefix, Covered, IsFolderSelection, HasFile, Picks, Selected, PlainFiles,
         Norms, FolderPicks;
    var norm := NormalizePaths(paths);
    if |norm| == 0 { return None; }
    var all := ByPrefix(norm);
    var filesByPath := IndexFiles(catalog);
    var targets: seq<bytes>, keys: set<bytes> := [], {};
    for i := 0 to |all|
      invariant Keyed(targets, keys) && AllKnown(catalog, all[..i])
      invariant forall k :: k in keys <==> exists sel <- all[..i] :: Picks(catalog, all, sel, k)
    {
      ghost var more := all[..i + 1];
      assert more == all[..i] + [all[i]] && all[i] in norm;
      ghost var before := keys;
      var known;
      known, targets, keys := AddSelection(catalog, all, all[i], filesByPath, targets, keys);
      if !known { return None; }
      assert forall k :: (exists sel <- more :: Picks(catalog, all, sel, k))
                    <==> (exists sel <- all[..i] :: Picks(catalog, all, sel, k)) || Picks(catalog, all, all[i], k);
    }
    assert all[..|all|] == all;
    WholeSelection(catalog, norm, all, targets, keys, paths);
    return Some(targets);
  }

  method AddSelection(catalog: seq<CatalogFile>, all: seq<bytes>, sel: bytes, filesByPath: map<bytes, CatalogFile>,
                      targets0: seq<bytes>, keys0: set<bytes>)
    returns (known: bool, targets: seq<bytes>, keys: set<bytes>)
    requires Keyed(targets0, keys0)
    requires forall k :: k in filesByPath <==> HasFile(catalog, k)
    requires forall k <- filesByPath :: Lower(filesByPath[k].path) == k
    ensures known <==> IsFolderSelection(sel, catalog) || HasFile(catalog, Lower(sel))
    ensures Keyed(targets, keys)
    ensures known ==> forall k :: k in keys <==> k in keys0 || Picks(catalog, all, sel, k)
  {
    hide Lower, UnderPrefix, FolderPrefix, Covered, IsFolderSelection, HasFile, FolderPicks, Keyed;
    known, targets, keys := true, targets0, keys0;
    if IsFolderSelection(sel, catalog) {
      targets, keys := AddFolder(catalog, all, sel, targets0, keys0);
      return;
    }
    if Lower(sel) !in filesByPath { return false, targets0, keys0; }
    var f := filesByPath[Lower(sel)];
    SameCover(f.path, sel, sel, all);
    if Covered(f.path, sel, all) { return; }
    if Lower(f.path) in keys { return; }
    OneMoreTarget(targets, keys, f.path);
    targets, keys := targets + [f.path], keys + {Lower(f.path)};
  }

  lemma WholeSelection(catalog: seq<CatalogFile>, norm: seq<bytes>, all: seq<bytes>, targets: seq<bytes>,
                       keys: set<bytes>, paths: seq<bytes>)
    requires norm == Norms(paths) && (forall x :: x in all <==> x in norm) && AllKnown(catalog, all)
    requires Keyed(targets, keys) && forall k :: k in keys <==> exists sel <- all :: Picks(catalog, all, sel, k)
    ensures AllKnown(catalog, norm)
    ensures PlainFiles(catalog) ==>
      forall key :: (exists t <- targets :: Lower(t) == key) <==> Selected(catalog, norm, key)
  {
    hide TrimSpace, Lower, UnderPrefix, FolderPrefix, Covered, IsFolderSelection, HasFile, Picks, PlainFiles, Norms;
    NormsAreTrimmed(paths);
    if PlainFiles(catalog) {
      forall key
        ensures (exists t <- targets :: Lower(t) == key) <==> Selected(catalog, norm, key)
      {
        PicksAreSelected(catalog, all, key);
        assert Selected(catalog, all, key) <==> Selected(catalog, norm, key);
        assert key in keys <==> exists t <- targets :: Lower(t) == key;
      }
    }
  }
}
