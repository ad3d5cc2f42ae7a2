/** From path strings to directories of the tree. */
module CatalogLookup {
  import opened Bytes
  import opened Options
  import opened Paths
  import opened PxarFormat
  import opened Catalog
  import opened CatalogTheorem
  import D = Didx

  /** A name as a file system allows it. */
  predicate CleanName(name: bytes) {
    name != [] && SLASH !in name && BACKSLASH !in name
  }

  predicate Clean(s: Entries) {
    match s
    case Nil => true
    case File(_, _, _, next) => Clean(next)
    case Dir(name, _, kids, next) => CleanName(name) && Clean(kids) && Clean(next)
    case Other(_, _, next) => Clean(next)
  }

  /** A directory of the tree: where its table stands, what is in it, and its path. */
  datatype Found = Found(at: nat, kids: Entries, path: bytes)

  /** The first subdirectory of this name, letter case aside. */
  function FirstDir(s: Entries, prefix: bytes, isRoot: bool, part: bytes): Option<Found> {
    match s
    case Nil => None
    case File(_, _, _, next) => FirstDir(next, prefix, isRoot, part)
    case Dir(name, at, kids, next) =>
      if EqualFold(name, part) then Some(Found(at, kids, PathOf(prefix, isRoot, name)))
      else FirstDir(next, prefix, isRoot, part)
    case Other(_, _, next) => FirstDir(next, prefix, isRoot, part)
  }

  function Down(here: Found, isRoot: bool, parts: seq<bytes>): Option<Found>
    decreases |parts|
  {
    if parts == [] then Some(here) else
      var d := FirstDir(here.kids, here.path, isRoot, parts[0]);
      if d.None? then None else Down(d.value, false, parts[1..])
  }

  lemma {:induction false} NothingToTrim(p: bytes)
    requires p != [] && p[|p| - 1] != SLASH && p[|p| - 1] != BACKSLASH
    ensures TrimRightSlashes(p) == p
  {
  }

  lemma {:induction false} BaseOfName(before: bytes, name: bytes)
    requires SLASH !in name && BACKSLASH !in name
    requires before == [] || before[|before| - 1] == BACKSLASH
    ensures BaseName(before + name) == name
    decreases |name|
  {
    if name != [] {
      var n := |name| - 1;
      assert name[n] in name;
      assert (before + name)[..|before + name| - 1] == before + name[..n];
      BaseOfName(before, name[..n]);
      assert name == name[..n] + [name[n]];
    } else {
      assert before + name == before;
    }
  }

  /** The name a listed directory is compared by is its own. */
  lemma NameOfListed(prefix: bytes, isRoot: bool, name: bytes)
    requires CleanName(name)
    ensures CatalogDirName(PathOf(prefix, isRoot, name)) == name
  {
    hide TrimRightSlashes, BaseName;
    var path := PathOf(prefix, isRoot, name);
    var before := if isRoot || prefix == [] then [] else TrimRightSlashes(prefix) + [BACKSLASH];
    assert path == before + name;
    assert name[|name| - 1] in name;
    NothingToTrim(path);
    BaseOfName(before, name);
  }

  lemma {:induction false} FindDirIsFirst(s: Entries, prefix: bytes, isRoot: bool, part: bytes)
    requires Clean(s)
    ensures var c, d := FindDir(Listed(s, prefix, isRoot), part), FirstDir(s, prefix, isRoot, part);
      && (c.Some? <==> d.Some?) && (d.Some? ==> c.value.dirStart == d.value.at && c.value.path == d.value.path)
    decreases s
  {
    hide PathOf, CatalogDirName, EqualFold, CleanName;
    match s {
      case Nil =>
      case File(_, _, _, next) =>
        FindDirIsFirst(next, prefix, isRoot, part);
        assert Listed(s, prefix, isRoot)[1..] == Listed(next, prefix, isRoot);
      case Dir(name, at, kids, next) =>
        NameOfListed(prefix, isRoot, name);
        FindDirIsFirst(next, prefix, isRoot, part);
        assert Listed(s, prefix, isRoot)[1..] == Listed(next, prefix, isRoot);
      case Other(_, _, next) => FindDirIsFirst(next, prefix, isRoot, part);
    }
  }

  lemma {:induction false} FirstIsPlaced(catalog: bytes, start: nat, s: Entries, prefix: bytes, isRoot: bool,
                                         part: bytes)
    requires Fit(s) && Clean(s) && KidsPlaced(catalog, start, s)
    ensures var d := FirstDir(s, prefix, isRoot, part);
      d.Some? ==> Fit(d.value.kids) && Clean(d.value.kids) && Placed(catalog, d.value.at, d.value.kids)
    decreases s
  {
    hide Placed, PathOf, EqualFold, CleanName;
    match s {
      case Nil =>
      case File(_, _, _, next) => FirstIsPlaced(catalog, start, next, prefix, isRoot, part);
      case Dir(_, _, _, next) => FirstIsPlaced(catalog, start, next, prefix, isRoot, part);
      case Other(_, _, next) => FirstIsPlaced(catalog, start, next, prefix, isRoot, part);
    }
  }

  /** The way down ends at the directory the parts lead to, or with "not found" if there is none. */
  lemma {:induction false} DescendIsExact(catalog: bytes, here: Found, isRoot: bool, parts: seq<bytes>)
    requires Fit(here.kids) && Clean(here.kids) && Placed(catalog, here.at, here.kids) && |catalog| <= MAX_INT / 2
    ensures Descend(catalog, DirRef(here.at, here.path, isRoot), parts)
         == match Down(here, isRoot, parts)
            case None => Err(NotFound)
            case Some(d) => Ok(DirRef(d.at, d.path, parts == [] && isRoot))
    ensures var d := Down(here, isRoot, parts);
      d.Some? ==> Fit(d.value.kids) && Placed(catalog, d.value.at, d.value.kids)
    decreases |parts|
  {
    hide Listing, Listed, FirstDir, FindDir, KidsPlaced, DirTable;
    if parts != [] {
      ListingIsExact(catalog, here.at, here.kids, here.path, isRoot);
      FindDirIsFirst(here.kids, here.path, isRoot, parts[0]);
      FirstIsPlaced(catalog, here.at, here.kids, here.path, isRoot, parts[0]);
      var d := FirstDir(here.kids, here.path, isRoot, parts[0]);
      if d.Some? { DescendIsExact(catalog, d.value, false, parts[1..]); }
    }
  }

  // The whole catalog.

  /** A catalog file: magic, tables, and the position of the root table at the end. */
  predicate IsCatalog(catalog: bytes, pos: nat, root: Entries) {
    && 16 <= |catalog| <= MAX_INT / 2 && D.CATALOG_MAGIC <= catalog
    && At(catalog, |catalog| - 8, LE64(pos)) && pos < |catalog|
    && Fit(root) && Clean(root) && Placed(catalog, pos, root)
  }

  /** Where the content begins: in the root's only entry if that is a directory. */
  function Content(pos: nat, root: Entries): (Found, bool) {
    var d := SoleDir(root);
    if d.Some? then (d.value, false) else (Found(pos, root, []), true)
  }

  function SoleDir(s: Entries): Option<Found> {
    match s
    case Nil => None
    case File(_, _, _, _) => None
    case Dir(_, at, kids, next) => if Listed(next, [], true) == [] then Some(Found(at, kids, [])) else None
    case Other(_, _, next) => SoleDir(next)
  }

  lemma {:induction false} SoleDirIsOnly(catalog: bytes, start: nat, s: Entries)
    requires Fit(s) && Clean(s) && KidsPlaced(catalog, start, s)
    ensures var children, d := Listed(s, [], true), SoleDir(s);
      && (d.Some? <==> |children| == 1 && children[0].isDir)
      && (d.Some? ==> children[0].dirStart == d.value.at && d.value.path == [] && Fit(d.value.kids)
                      && Clean(d.value.kids) && Placed(catalog, d.value.at, d.value.kids) && d.value.at < start)
    decreases s
  {
    hide Placed, CleanName;
    match s {
      case Nil =>
      case File(_, _, _, next) =>
      case Dir(_, _, _, next) =>
      case Other(_, _, next) => SoleDirIsOnly(catalog, start, next);
    }
  }

  lemma ContentIsExact(catalog: bytes, pos: nat, root: Entries)
    requires IsCatalog(catalog, pos, root)
    ensures var (c, top) := Content(pos, root);
      && ContentRoot(catalog) == Ok(DirRef(c.at, [], top)) && c.path == []
      && Fit(c.kids) && Clean(c.kids) && Placed(catalog, c.at, c.kids) && c.at <= pos
  {
    hide Listing, KidsPlaced, DirTable, Listed, SoleDir, LE64;
    AtU64(catalog, |catalog| - 8, pos);
    ListingIsExact(catalog, pos, root, [], true);
    assert KidsPlaced(catalog, pos, root) by { PlacedKids(catalog, pos, root); }
    SoleDirIsOnly(catalog, pos, root);
  }

  lemma PlacedKids(catalog: bytes, pos: nat, s: Entries)
    requires Placed(catalog, pos, s)
    ensures KidsPlaced(catalog, pos, s)
  {
    hide DirTable;
  }

  /** What listing these parts should answer. */
  function Answer(c: Found, top: bool, parts: seq<bytes>): Result<seq<Child>> {
    var d := Down(c, top, parts);
    if d.None? then Err(NotFound) else Ok(Listed(d.value.kids, d.value.path, parts == [] && top))
  }

  /** Listing a path gives exactly the direct children of the directory its parts lead to, or fails. */
  lemma PathListingIsExact(catalog: bytes, pos: nat, root: Entries, dirPath: bytes)
    requires IsCatalog(catalog, pos, root)
    ensures EntriesOf(catalog, dirPath)
         == Answer(Content(pos, root).0, Content(pos, root).1, Parts(NormalizeCatalogDirPath(dirPath)))
  {
    hide Listing, Listed, Placed, Parts, NormalizeCatalogDirPath, Down, Descend, Content, ContentRoot;
    var (c, top) := Content(pos, root);
    var parts := Parts(NormalizeCatalogDirPath(dirPath));
    ContentIsExact(catalog, pos, root);
    DescendIsExact(catalog, c, top, parts);
    var d := Down(c, top, parts);
    if d.Some? { ListingIsExact(catalog, d.value.at, d.value.kids, d.value.path, parts == [] && top); }
  }

  /** Reading all entries gives every entry of the content once. */
  lemma AllEntriesAreExact(catalog: bytes, pos: nat, root: Entries, depth: nat)
    requires IsCatalog(catalog, pos, root) && depth > pos
    ensures AllEntries(catalog, depth) == Some(Ok(All(Content(pos, root).0.kids, [], Content(pos, root).1)))
  {
    hide Placed, Content, ContentRoot, Walk;
    var (c, top) := Content(pos, root);
    ContentIsExact(catalog, pos, root);
    WalkIsExact(catalog, c.at, c.kids, [], top, depth);
  }

  // A directory's path leads back to it.

  predicate AllClean(names: seq<bytes>) {
    forall n <- names :: CleanName(n)
  }

  function JoinNames(names: seq<bytes>): bytes {
    if names == [] then [] else if |names| == 1 then names[0] else names[0] + [BACKSLASH] + JoinNames(names[1..])
  }

  lemma {:induction false} PartsOfName(name: bytes, rest: bytes, part: bytes)
    requires BACKSLASH !in name
    ensures PartsFrom(name + rest, part) == PartsFrom(rest, part + name)
    decreases |name|
  {
    if name == [] {
      assert name + rest == rest && part + name == part;
    } else {
      assert (name + rest)[1..] == name[1..] + rest && (name + rest)[0] == name[0];
      assert name[0] in name;
      PartsOfName(name[1..], rest, part + [name[0]]);
      assert part + [name[0]] + name[1..] == part + name;
    }
  }

  /** A joined path is cut into what it was joined from. */
  lemma {:induction false} PartsOfJoin(names: seq<bytes>)
    requires AllClean(names)
    ensures Parts(JoinNames(names)) == names
  {
    if names != [] {
      var n := names[0];
      assert CleanName(n);
      if |names| == 1 {
        PartsOfName(n, [], []);
        assert n + [] == n && [] + n == n;
        assert names == [n];
      } else {
        var tail := [BACKSLASH] + JoinNames(names[1..]);
        assert JoinNames(names) == n + tail;
        PartsOfName(n, tail, []);
        assert [] + n == n && tail[1..] == JoinNames(names[1..]);
        PartsOfJoin(names[1..]);
        assert names == [n] + names[1..];
      }
    }
  }

  lemma {:induction false} JoinOfParts(path: bytes, part: bytes)
    ensures |JoinNames(PartsFrom(path, part))| <= |path| + |part|
    decreases |path|
  {
    if path != [] {
      if path[0] == BACKSLASH {
        JoinOfParts(path[1..], []);
        if part != [] {
          var more := PartsFrom(path[1..], []);
          assert ([part] + more)[1..] == more;
        } else {
          assert [] + PartsFrom(path[1..], []) == PartsFrom(path[1..], []);
        }
      } else {
        JoinOfParts(path[1..], part + [path[0]]);
      }
    }
  }

  lemma {:induction false} TrimsShorten(s: bytes)
    ensures |TrimSpace(s)| <= |s| && |TrimSlashes(s)| <= |s|
    ensures s != [] && (IsSpace(s[0]) || IsSpace(s[|s| - 1])) ==> |TrimSpace(s)| < |s|
    decreases |s|
  {
    if s != [] {
      TrimsShorten(s[1..]);
      TrimsShorten(s[..|s| - 1]);
    }
  }

  /** White space at neither end of the path. */
  predicate PlainEnds(names: seq<bytes>)
    requires AllClean(names)
  {
    names != [] ==> var last := names[|names| - 1];
      CleanName(names[0]) && CleanName(last) && !IsSpace(names[0][0]) && !IsSpace(last[|last| - 1])
  }

  lemma {:induction false} EndsOfJoin(names: seq<bytes>)
    requires AllClean(names) && names != []
    ensures var j, last := JoinNames(names), names[|names| - 1];
      && CleanName(names[0]) && CleanName(last) && j != [] && j[0] == names[0][0] && j[|j| - 1] == last[|last| - 1]
      && j[0] != BACKSLASH && j[|j| - 1] != BACKSLASH && j[|j| - 1] != SLASH && SLASH !in j
  {
    hide CleanName;
    assert CleanName(names[0]) && CleanName(names[|names| - 1]);
    CleanEnds(names[0]);
    if |names| > 1 {
      EndsOfJoin(names[1..]);
      GluedEnds(names[0], JoinNames(names[1..]));
    }
  }

  lemma CleanEnds(name: bytes)
    requires CleanName(name)
    ensures name != [] && name[0] != BACKSLASH && name[|name| - 1] != BACKSLASH && name[|name| - 1] != SLASH
    ensures SLASH !in name
  {
    assert name[0] in name && name[|name| - 1] in name;
  }

  lemma GluedEnds(name: bytes, rest: bytes)
    requires name != [] && rest != [] && SLASH !in name && SLASH !in rest
    ensures var j := name + [BACKSLASH] + rest;
      j[0] == name[0] && j[|j| - 1] == rest[|rest| - 1] && SLASH !in j
  {
  }

  lemma NormalShortens(names: seq<bytes>)
    requires AllClean(names) && !PlainEnds(names)
    ensures |NormalizeCatalogDirPath(JoinNames(names))| < |JoinNames(names)|
  {
    hide CleanName, IsSpace;
    EndsOfJoin(names);
    var j := JoinNames(names);
    TrimsShorten(j);
    TrimsShorten(Backslashed(TrimSpace(j)));
  }

  /** The path of a directory is understood exactly when white space stands at neither of its ends. */
  lemma PathIsUnderstood(names: seq<bytes>)
    requires AllClean(names)
    ensures Parts(NormalizeCatalogDirPath(JoinNames(names))) == names <==> PlainEnds(names)
  {
    hide Parts, PartsFrom, CleanName, IsSpace;
    var j := JoinNames(names);
    PartsOfJoin(names);
    if names == [] {
      assert NormalizeCatalogDirPath([]) == [];
    } else {
      EndsOfJoin(names);
      if PlainEnds(names) {
        assert TrimSpace(j) == j && Backslashed(j) == j && TrimSlashes(j) == j;
      } else {
        NormalShortens(names);
        TooShortToBe(NormalizeCatalogDirPath(j), names);
      }
    }
  }

  lemma TooShortToBe(path: bytes, names: seq<bytes>)
    requires |path| < |JoinNames(names)|
    ensures Parts(path) != names
  {
    JoinOfParts(path, []);
  }

  /** No two subdirectories of one directory differ in letter case only. */
  predicate DirsDistinct(s: Entries) {
    match s
    case Nil => true
    case File(_, _, _, next) => DirsDistinct(next)
    case Dir(name, _, kids, next) => !HasDir(next, name) && DirsDistinct(kids) && DirsDistinct(next)
    case Other(_, _, next) => DirsDistinct(next)
  }

  predicate HasDir(s: Entries, part: bytes) {
    match s
    case Nil => false
    case File(_, _, _, next) => HasDir(next, part)
    case Dir(name, _, _, next) => EqualFold(name, part) || HasDir(next, part)
    case Other(_, _, next) => HasDir(next, part)
  }

  /** The subdirectory of exactly this name. */
  function NamedDir(s: Entries, prefix: bytes, isRoot: bool, name: bytes): Option<Found> {
    match s
    case Nil => None
    case File(_, _, _, next) => NamedDir(next, prefix, isRoot, name)
    case Dir(n, at, kids, next) =>
      if n == name then Some(Found(at, kids, PathOf(prefix, isRoot, name))) else NamedDir(next, prefix, isRoot, name)
    case Other(_, _, next) => NamedDir(next, prefix, isRoot, name)
  }

  /** The directory with exactly these names on the way. */
  function Named(here: Found, isRoot: bool, names: seq<bytes>): Option<Found>
    decreases |names|
  {
    if names == [] then Some(here) else
      var d := NamedDir(here.kids, here.path, isRoot, names[0]);
      if d.None? then None else Named(d.value, false, names[1..])
  }

  lemma {:induction false} NamedIsFirst(s: Entries, prefix: bytes, isRoot: bool, name: bytes)
    requires DirsDistinct(s) && Clean(s)
    ensures var d := NamedDir(s, prefix, isRoot, name);
      d.Some? ==> FirstDir(s, prefix, isRoot, name) == d && HasDir(s, name) && CleanName(name)
                  && DirsDistinct(d.value.kids) && Clean(d.value.kids) && d.value.path == PathOf(prefix, isRoot, name)
    decreases s
  {
    hide PathOf, CleanName;
    match s {
      case Nil =>
      case File(_, _, _, next) => NamedIsFirst(next, prefix, isRoot, name);
      case Dir(n, _, _, next) =>
        NamedIsFirst(next, prefix, isRoot, name);
        if EqualFold(n, name) { SameFold(next, n, name); }
      case Other(_, _, next) => NamedIsFirst(next, prefix, isRoot, name);
    }
  }

  lemma {:induction false} SameFold(s: Entries, a: bytes, b: bytes)
    requires EqualFold(a, b)
    ensures HasDir(s, a) == HasDir(s, b)
    decreases s
  {
    hide Lower;
    match s {
      case Nil =>
      case File(_, _, _, next) => SameFold(next, a, b);
      case Dir(_, _, _, next) => SameFold(next, a, b);
      case Other(_, _, next) => SameFold(next, a, b);
    }
  }

  lemma {:induction false} NamedIsDown(here: Found, isRoot: bool, before: seq<bytes>, names: seq<bytes>)
    requires DirsDistinct(here.kids) && Clean(here.kids) && AllClean(before) && here.path == JoinNames(before)
    requires isRoot ==> before == []
    ensures var d := Named(here, isRoot, names);
      d.Some? ==> Down(here, isRoot, names) == d && AllClean(names) && d.value.path == JoinNames(before + names)
    decreases |names|
  {
    hide FirstDir, NamedDir, PathOf, DirsDistinct, Clean, CleanName;
    if names == [] {
      assert before + names == before;
    } else {
      var d := NamedDir(here.kids, here.path, isRoot, names[0]);
      if d.Some? {
        NamedIsFirst(here.kids, here.path, isRoot, names[0]);
        OneDown(before, isRoot, names[0]);
        NamedIsDown(d.value, false, before + [names[0]], names[1..]);
        assert before + [names[0]] + names[1..] == before + names;
        assert names == [names[0]] + names[1..];
      }
    }
  }

  lemma OneDown(before: seq<bytes>, isRoot: bool, name: bytes)
    requires AllClean(before) && CleanName(name) && (isRoot ==> before == [])
    ensures PathOf(JoinNames(before), isRoot, name) == JoinNames(before + [name]) && AllClean(before + [name])
  {
    hide CleanName;
    JoinOneMore(before, name);
    if before == [] {
      assert before + [name] == [name];
    } else {
      EndsOfJoin(before);
      NothingToTrim(JoinNames(before));
    }
  }

  lemma {:induction false} JoinOneMore(before: seq<bytes>, name: bytes)
    ensures before != [] ==> JoinNames(before + [name]) == JoinNames(before) + [BACKSLASH] + name
  {
    if |before| == 1 {
      assert before + [name] == [before[0], name] && [before[0], name][1..] == [name];
    } else if |before| > 1 {
      JoinOneMore(before[1..], name);
      assert (before + [name])[1..] == before[1..] + [name];
      var a, b := before[0] + [BACKSLASH], JoinNames(before[1..]);
      assert a + (b + [BACKSLASH] + name) == a + b + [BACKSLASH] + name;
    }
  }

  predicate EndsInName(path: bytes) {
    path != [] && path[|path| - 1] != SLASH && path[|path| - 1] != BACKSLASH
  }

  /** What stands in front of the next name on the way down. */
  function Lead(path: bytes): nat {
    if path == [] then 0 else |path| + 1
  }

  lemma {:induction false} FirstDirPath(s: Entries, prefix: bytes, isRoot: bool, part: bytes)
    requires Clean(s) && (prefix == [] || EndsInName(prefix)) && (isRoot ==> prefix == [])
    ensures var d := FirstDir(s, prefix, isRoot, part);
      d.Some? ==> Clean(d.value.kids) && EndsInName(d.value.path) && |d.value.path| == Lead(prefix) + |part|
    decreases s
  {
    hide PathOf, EqualFold, CleanName;
    match s {
      case Nil =>
      case File(_, _, _, next) => FirstDirPath(next, prefix, isRoot, part);
      case Dir(name, _, _, next) =>
        FirstDirPath(next, prefix, isRoot, part);
        if EqualFold(name, part) { PathOfName(prefix, isRoot, name, part); }
      case Other(_, _, next) => FirstDirPath(next, prefix, isRoot, part);
    }
  }

  lemma PathOfName(prefix: bytes, isRoot: bool, name: bytes, part: bytes)
    requires CleanName(name) && EqualFold(name, part)
    requires (prefix == [] || EndsInName(prefix)) && (isRoot ==> prefix == [])
    ensures var path := PathOf(prefix, isRoot, name); EndsInName(path) && |path| == Lead(prefix) + |part|
  {
    CleanEnds(name);
    assert |Lower(name)| == |Lower(part)|;
    if prefix != [] { NothingToTrim(prefix); }
  }

  /** The path of a directory found is no longer than the parts it was looked up by. */
  lemma {:induction false} FoundPathIsShort(here: Found, isRoot: bool, parts: seq<bytes>)
    requires Clean(here.kids) && (here.path == [] || EndsInName(here.path)) && (isRoot ==> here.path == [])
    ensures var d := Down(here, isRoot, parts);
      d.Some? ==> |d.value.path| == if parts == [] then |here.path| else Lead(here.path) + |JoinNames(parts)|
    decreases |parts|
  {
    hide FirstDir, Clean;
    if parts != [] {
      FirstDirPath(here.kids, here.path, isRoot, parts[0]);
      var d := FirstDir(here.kids, here.path, isRoot, parts[0]);
      if d.Some? {
        FoundPathIsShort(d.value, false, parts[1..]);
      }
    }
  }

  /** The lookup gets to a directory from its own path exactly when white space stands at neither of its ends. */
  lemma DirectoryIsFound(c: Found, top: bool, names: seq<bytes>)
    requires c.path == [] && Clean(c.kids) && DirsDistinct(c.kids) && Named(c, top, names).Some? && AllClean(names)
    ensures Named(c, top, names).value.path == JoinNames(names)
    ensures Down(c, top, Parts(NormalizeCatalogDirPath(JoinNames(names)))) == Named(c, top, names) <==> PlainEnds(names)
    ensures var d := Down(c, top, Parts(NormalizeCatalogDirPath(JoinNames(names))));
      d.Some? && d.value.path == JoinNames(names) ==> PlainEnds(names)
  {
    hide Parts, NormalizeCatalogDirPath, Down, DirsDistinct, Named, PlainEnds, AllClean, Clean;
    NothingJoined();
    NamedIsDown(c, top, [], names);
    assert [] + names == names;
    PathIsUnderstood(names);
    if !PlainEnds(names) {
      var path := NormalizeCatalogDirPath(JoinNames(names));
      NormalShortens(names);
      FoundPathIsShort(c, top, Parts(path));
      JoinOfParts(path, []);
      assert Parts(path) == PartsFrom(path, []) by { PartsDefinition(path); }
    }
  }

  lemma PartsDefinition(path: bytes)
    ensures Parts(path) == PartsFrom(path, [])
  {
  }

  /**
   A directory's own path leads to it exactly when white space stands at neither of its ends; it is then listed as
   exactly what it holds.
   */
  lemma DirectoryIsListed(catalog: bytes, pos: nat, root: Entries, names: seq<bytes>)
    requires IsCatalog(catalog, pos, root) && DirsDistinct(Content(pos, root).0.kids) && AllClean(names)
    requires var (c, top) := Content(pos, root); Named(c, top, names).Some?
    ensures var (c, top) := Content(pos, root); var d := Named(c, top, names).value;
      && d.path == JoinNames(names)
      && (Resolved(catalog, d.path) == Ok(DirRef(d.at, d.path, names == [] && top)) <==> PlainEnds(names))
      && (PlainEnds(names) ==> EntriesOf(catalog, d.path) == Ok(Listed(d.kids, d.path, names == [] && top)))
  {
    hide Listed, Placed, Parts, NormalizeCatalogDirPath, Down, Descend, ContentRoot, Content, DirsDistinct, Named,
         JoinNames, PlainEnds, AllClean, Clean, Fit, Listing;
    var (c, top) := Content(pos, root);
    ContentIsExact(catalog, pos, root);
    DirectoryIsFound(c, top, names);
    PathIsUnderstood(names);
    DescendIsExact(catalog, c, top, Parts(NormalizeCatalogDirPath(JoinNames(names))));
    PathListingIsExact(catalog, pos, root, JoinNames(names));
  }

  lemma NothingJoined()
    ensures JoinNames([]) == [] && AllClean([])
  {
  }
}
