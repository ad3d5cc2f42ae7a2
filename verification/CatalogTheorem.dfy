/** The catalog format as trees, and what the readers make of it. */
module CatalogTheorem {
  import opened Bytes
  import opened Options
  import opened Varint
  import opened Catalog

  /** A directory's entries; each subdirectory says where its own table stands. */
  datatype Entries =
    | Nil
    | File(name: bytes, size: nat, mtime: int, next: Entries)
    | Dir(name: bytes, at: nat, kids: Entries, next: Entries)
    | Other(kind: byte, name: bytes, next: Entries)

  predicate Fit(s: Entries) {
    match s
    case Nil => true
    case File(_, size, mtime, next) => size <= MAX_INT && -0x8000_0000_0000_0000 <= mtime <= MAX_INT && Fit(next)
    case Dir(_, _, kids, next) => Fit(kids) && Fit(next)
    case Other(kind, _, next) => IsOtherKind(kind) && Fit(next)
  }

  function Count(s: Entries): nat {
    match s
    case Nil => 0
    case File(_, _, _, next) => 1 + Count(next)
    case Dir(_, _, _, next) => 1 + Count(next)
    case Other(_, _, next) => 1 + Count(next)
  }

  function NameBytes(name: bytes): bytes {
    EncodeU64(|name|) + name
  }

  /** The rows of a table at `start`; subdirectories are referred to by distance. */
  function RowBytes(s: Entries, start: nat): bytes {
    match s
    case Nil => []
    case File(name, size, mtime, next) =>
      [KIND_FILE] + (NameBytes(name) + (EncodeU64(size) + (EncodeI64(mtime) + RowBytes(next, start))))
    case Dir(name, at, _, next) =>
      [KIND_DIR] + (NameBytes(name) + (EncodeU64(if at <= start then start - at else 0) + RowBytes(next, start)))
    case Other(kind, name, next) => [kind] + (NameBytes(name) + RowBytes(next, start))
  }

  function BlockBytes(s: Entries, start: nat): bytes {
    EncodeU64(Count(s)) + RowBytes(s, start)
  }

  function DirTable(s: Entries, start: nat): bytes {
    EncodeU64(|BlockBytes(s, start)|) + BlockBytes(s, start)
  }

  /** The table stands at `start`, and those of all subdirectories in front of their parents'. */
  predicate Placed(catalog: bytes, start: nat, s: Entries)
    decreases s, 1
  {
    At(catalog, start, DirTable(s, start)) && KidsPlaced(catalog, start, s)
  }

  predicate KidsPlaced(catalog: bytes, start: nat, s: Entries)
    decreases s, 0
  {
    match s
    case Nil => true
    case File(_, _, _, next) => KidsPlaced(catalog, start, next)
    case Dir(_, at, kids, next) => at < start && Placed(catalog, at, kids) && KidsPlaced(catalog, start, next)
    case Other(_, _, next) => KidsPlaced(catalog, start, next)
  }

  // What should come out.

  function PathOf(prefix: bytes, isRoot: bool, name: bytes): bytes {
    if isRoot then name else JoinPath(prefix, name)
  }

  /** The direct children. */
  function Listed(s: Entries, prefix: bytes, isRoot: bool): seq<Child> {
    match s
    case Nil => []
    case File(name, size, mtime, next) =>
      [Child(PathOf(prefix, isRoot, name), false, size, mtime, 0)] + Listed(next, prefix, isRoot)
    case Dir(name, at, _, next) =>
      [Child(PathOf(prefix, isRoot, name), true, 0, 0, at)] + Listed(next, prefix, isRoot)
    case Other(_, _, next) => Listed(next, prefix, isRoot)
  }

  /** Every entry once: a directory, then all below it, then what comes after. */
  function All(s: Entries, prefix: bytes, isRoot: bool): seq<Child> {
    match s
    case Nil => []
    case File(name, size, mtime, next) =>
      [Child(PathOf(prefix, isRoot, name), false, size, mtime, 0)] + All(next, prefix, isRoot)
    case Dir(name, at, kids, next) =>
      [Child(PathOf(prefix, isRoot, name), true, 0, 0, at)] + All(kids, PathOf(prefix, isRoot, name), false)
      + All(next, prefix, isRoot)
    case Other(_, _, next) => All(next, prefix, isRoot)
  }

  // Reading a table back.

  lemma ReadNameAt(block: bytes, pos: nat, name: bytes)
    requires At(block, pos, NameBytes(name)) && |block| <= MAX_INT / 2
    ensures ReadName(block, pos) == Ok((name, pos + |NameBytes(name)|))
  {
    hide EncodeU64;
    AtSplit(block, pos, EncodeU64(|name|), name);
    DecodeU64(block, pos, |name|);
  }

  lemma BackToStart(start: nat, at: nat)
    requires at < start <= MAX_INT
    ensures WrapStart(start, start - at) == at
  {
    hide Wrap64;
    SmallWraps(start - at);
    SmallWraps(at);
  }

  /** One row read, and then the others. */
  lemma RowsStep(block: bytes, pos: nat, count: nat, start: nat, prefix: bytes, isRoot: bool,
                 child: Option<Child>, next: nat, rest: seq<Child>, end: nat)
    requires ReadRow(block, pos, start, prefix, isRoot) == Ok((child, next))
    requires Rows(block, next, count, start, prefix, isRoot) == Ok((rest, end))
    ensures Rows(block, pos, count + 1, start, prefix, isRoot)
         == Ok(((if child.Some? then [child.value] else []) + rest, end))
  {
    hide ReadRow;
  }

  lemma ReadFileRow(block: bytes, pos: nat, name: bytes, size: nat, mtime: int, rest: bytes, start: nat,
                    prefix: bytes, isRoot: bool)
    requires size <= MAX_INT && -0x8000_0000_0000_0000 <= mtime <= MAX_INT && |block| <= MAX_INT / 2
    requires At(block, pos, [KIND_FILE] + (NameBytes(name) + (EncodeU64(size) + (EncodeI64(mtime) + rest))))
    ensures var end := pos + 1 + |NameBytes(name)| + |EncodeU64(size)| + |EncodeI64(mtime)|;
      && ReadRow(block, pos, start, prefix, isRoot)
         == Ok((Some(Child(PathOf(prefix, isRoot, name), false, size, mtime, 0)), end))
      && At(block, end, rest)
  {
    hide EncodeU64, EncodeI64, NameBytes, JoinPath, Wrap64, ReadName, ReadU64From, ReadI64From;
    SmallWraps(size);
    var n, z, m := NameBytes(name), EncodeU64(size), EncodeI64(mtime);
    AtSplit(block, pos, [KIND_FILE], n + (z + (m + rest)));
    AtSplit(block, pos + 1, n, z + (m + rest));
    AtSplit(block, pos + 1 + |n|, z, m + rest);
    AtSplit(block, pos + 1 + |n| + |z|, m, rest);
    assert block[pos] == [KIND_FILE][0];
    ReadNameAt(block, pos + 1, name);
    DecodeU64(block, pos + 1 + |n|, size);
    DecodeI64(block, pos + 1 + |n| + |z|, mtime);
  }

  lemma ReadDirRow(block: bytes, pos: nat, name: bytes, at: nat, rest: bytes, start: nat, prefix: bytes, isRoot: bool)
    requires at < start <= MAX_INT && |block| <= MAX_INT / 2
    requires At(block, pos, [KIND_DIR] + (NameBytes(name) + (EncodeU64(start - at) + rest)))
    ensures var end := pos + 1 + |NameBytes(name)| + |EncodeU64(start - at)|;
      && ReadRow(block, pos, start, prefix, isRoot)
         == Ok((Some(Child(PathOf(prefix, isRoot, name), true, 0, 0, at)), end))
      && At(block, end, rest)
  {
    hide EncodeU64, NameBytes, JoinPath, WrapStart, ReadName, ReadU64From;
    BackToStart(start, at);
    var n, d := NameBytes(name), EncodeU64(start - at);
    AtSplit(block, pos, [KIND_DIR], n + (d + rest));
    AtSplit(block, pos + 1, n, d + rest);
    AtSplit(block, pos + 1 + |n|, d, rest);
    assert block[pos] == [KIND_DIR][0];
    ReadNameAt(block, pos + 1, name);
    DecodeU64(block, pos + 1 + |n|, start - at);
  }

  lemma ReadOtherRow(block: bytes, pos: nat, kind: byte, name: bytes, rest: bytes, start: nat,
                     prefix: bytes, isRoot: bool)
    requires IsOtherKind(kind) && |block| <= MAX_INT / 2
    requires At(block, pos, [kind] + (NameBytes(name) + rest))
    ensures var end := pos + 1 + |NameBytes(name)|;
      ReadRow(block, pos, start, prefix, isRoot) == Ok((None, end)) && At(block, end, rest)
  {
    hide NameBytes;
    AtSplit(block, pos, [kind], NameBytes(name) + rest);
    AtSplit(block, pos + 1, NameBytes(name), rest);
    assert block[pos] == [kind][0];
    ReadNameAt(block, pos + 1, name);
  }

  lemma {:induction false} RowsRead(block: bytes, pos: nat, s: Entries, catalog: bytes, start: nat,
                                    prefix: bytes, isRoot: bool)
    requires Fit(s) && KidsPlaced(catalog, start, s) && start <= MAX_INT && |block| <= MAX_INT / 2
    requires At(block, pos, RowBytes(s, start))
    ensures Rows(block, pos, Count(s), start, prefix, isRoot)
         == Ok((Listed(s, prefix, isRoot), pos + |RowBytes(s, start)|))
    decreases s
  {
    hide ReadRow, Rows, EncodeU64, EncodeI64, NameBytes, Placed, PathOf, At, ReadU64From, ReadI64From, JoinPath, Onto;
    match s {
      case Nil => NoRows(block, pos, start, prefix, isRoot);
      case File(name, size, mtime, next) =>
        var more := RowBytes(next, start);
        ReadFileRow(block, pos, name, size, mtime, more, start, prefix, isRoot);
        var at := pos + 1 + |NameBytes(name)| + |EncodeU64(size)| + |EncodeI64(mtime)|;
        RowsRead(block, at, next, catalog, start, prefix, isRoot);
        RowsStep(block, pos, Count(next), start, prefix, isRoot,
                 Some(Child(PathOf(prefix, isRoot, name), false, size, mtime, 0)), at,
                 Listed(next, prefix, isRoot), at + |more|);
      case Dir(name, dir, kids, next) =>
        var more := RowBytes(next, start);
        ReadDirRow(block, pos, name, dir, more, start, prefix, isRoot);
        var at := pos + 1 + |NameBytes(name)| + |EncodeU64(start - dir)|;
        RowsRead(block, at, next, catalog, start, prefix, isRoot);
        RowsStep(block, pos, Count(next), start, prefix, isRoot,
                 Some(Child(PathOf(prefix, isRoot, name), true, 0, 0, dir)), at,
                 Listed(next, prefix, isRoot), at + |more|);
      case Other(kind, name, next) =>
        var more := RowBytes(next, start);
        ReadOtherRow(block, pos, kind, name, more, start, prefix, isRoot);
        var at := pos + 1 + |NameBytes(name)|;
        RowsRead(block, at, next, catalog, start, prefix, isRoot);
        RowsStep(block, pos, Count(next), start, prefix, isRoot, None, at, Listed(next, prefix, isRoot), at + |more|);
        assert [] + Listed(next, prefix, isRoot) == Listed(next, prefix, isRoot);
    }
  }

  lemma NoRows(block: bytes, pos: nat, start: nat, prefix: bytes, isRoot: bool)
    ensures Rows(block, pos, 0, start, prefix, isRoot) == Ok(([], pos))
  {
  }

  /** Listing the table of a directory gives exactly its direct children. */
  lemma ListingIsExact(catalog: bytes, start: nat, s: Entries, prefix: bytes, isRoot: bool)
    requires Fit(s) && Placed(catalog, start, s) && |catalog| <= MAX_INT / 2
    ensures Listing(catalog, start, prefix, isRoot) == Ok(Listed(s, prefix, isRoot))
  {
    hide EncodeU64, BlockBytes, KidsPlaced, Children, ReadU64From;
    var block := BlockBytes(s, start);
    AtSplit(catalog, start, EncodeU64(|block|), block);
    DecodeU64(catalog, start, |block|);
    BlockIsExact(catalog, start, s, prefix, isRoot);
  }

  lemma BlockIsExact(catalog: bytes, start: nat, s: Entries, prefix: bytes, isRoot: bool)
    requires Fit(s) && KidsPlaced(catalog, start, s) && start <= MAX_INT && |BlockBytes(s, start)| <= MAX_INT / 2
    ensures Children(BlockBytes(s, start), start, prefix, isRoot) == Ok(Listed(s, prefix, isRoot))
  {
    hide EncodeU64, RowBytes, Rows, KidsPlaced, ReadU64From, Listed;
    var block := BlockBytes(s, start);
    assert At(block, 0, EncodeU64(Count(s)) + RowBytes(s, start));
    AtSplit(block, 0, EncodeU64(Count(s)), RowBytes(s, start));
    CountFits(s, start);
    DecodeU64(block, 0, Count(s));
    RowsRead(block, |EncodeU64(Count(s))|, s, catalog, start, prefix, isRoot);
  }

  lemma {:induction false} CountFits(s: Entries, start: nat)
    ensures Count(s) <= |RowBytes(s, start)|
    decreases s
  {
    hide EncodeU64, EncodeI64, NameBytes;
    match s {
      case Nil =>
      case File(_, _, _, next) => CountFits(next, start);
      case Dir(_, _, _, next) => CountFits(next, start);
      case Other(_, _, next) => CountFits(next, start);
    }
  }

  /** Walking from the table of a directory gives every entry below it once, with its path, size and time. */
  lemma {:induction false} WalkIsExact(catalog: bytes, start: nat, s: Entries, prefix: bytes, isRoot: bool, depth: nat)
    requires Fit(s) && Placed(catalog, start, s) && |catalog| <= MAX_INT / 2 && depth > start
    ensures Walk(catalog, start, prefix, isRoot, depth) == Some(Ok(All(s, prefix, isRoot)))
    decreases s, 1
  {
    hide Listing, Listed, WalkAll, DirTable;
    ListingIsExact(catalog, start, s, prefix, isRoot);
    WalkAllIsExact(catalog, start, s, prefix, isRoot, depth - 1);
  }

  lemma {:induction false} WalkAllIsExact(catalog: bytes, start: nat, s: Entries, prefix: bytes, isRoot: bool,
                                          depth: nat)
    requires Fit(s) && KidsPlaced(catalog, start, s) && |catalog| <= MAX_INT / 2 && depth >= start
    ensures WalkAll(catalog, Listed(s, prefix, isRoot), depth) == Some(Ok(All(s, prefix, isRoot)))
    decreases s, 0
  {
    hide Walk, Placed, PathOf;
    match s {
      case Nil =>
      case File(name, size, mtime, next) =>
        WalkAllIsExact(catalog, start, next, prefix, isRoot, depth);
        assert Listed(s, prefix, isRoot)[1..] == Listed(next, prefix, isRoot);
      case Dir(name, at, kids, next) =>
        WalkIsExact(catalog, at, kids, PathOf(prefix, isRoot, name), false, depth);
        WalkAllIsExact(catalog, start, next, prefix, isRoot, depth);
        assert Listed(s, prefix, isRoot)[1..] == Listed(next, prefix, isRoot);
      case Other(_, _, next) =>
        WalkAllIsExact(catalog, start, next, prefix, isRoot, depth);
    }
  }
}
