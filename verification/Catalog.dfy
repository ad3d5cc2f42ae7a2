/** Reading the catalog: directory tables that refer backwards to the tables of their subdirectories. */
module Catalog {
  import opened Bytes
  import opened Options
  import opened Paths
  import opened PxarFormat
  import opened Varint
  import D = Didx

  datatype CatalogError =
    | Integer(error: VarintError) | OutOfRange | TableOverflow | TableTruncated | NameTruncated | UnknownType
    | Unparsed | BadMagic | TooShort | NotFound
    /** A length that turns negative as an `int` and fails a slice. */
    | Panics

  datatype Result<+T> = Ok(value: T) | Err(error: CatalogError)

  /** One listed entry; `dirStart` is where a directory's own table is claimed to be. */
  datatype Child = Child(path: bytes, isDir: bool, size: int, mtime: int, dirStart: int)

  const KIND_DIR: byte := 100
  const KIND_FILE: byte := 102

  /** Links, devices, pipes and sockets: 'l', 'h', 'b', 'c', 'p', 's'. */
  predicate IsOtherKind(kind: byte) {
    kind in [108, 104, 98, 99, 112, 115]
  }

  function TrimRightSlashes(p: bytes): bytes {
    if p != [] && (p[|p| - 1] == SLASH || p[|p| - 1] == BACKSLASH) then TrimRightSlashes(p[..|p| - 1]) else p
  }

  function JoinPath(prefix: bytes, name: bytes): bytes {
    if prefix == [] then name else TrimRightSlashes(prefix) + [BACKSLASH] + name
  }

  /** A length-prefixed name and the position behind it. */
  function ReadName(block: bytes, pos: nat): Result<(bytes, nat)> {
    match ReadU64From(block, pos, 0, 0)
    case Bad(e) => Err(Integer(e))
    case Got(n, start) =>
      if n > MAX_INT - start then Err(Panics)
      else if start + n > |block| then Err(NameTruncated)
      else Ok((block[start..start + n], start + n))
  }

  /** One row of a table; entries of other kinds yield no child. */
  function ReadRow(block: bytes, pos: nat, blockStart: int, prefix: bytes, isRoot: bool): Result<(Option<Child>, nat)> {
    if pos >= |block| then Err(TableTruncated)
    else if block[pos] == KIND_DIR then
      match ReadName(block, pos + 1)
      case Err(e) => Err(e)
      case Ok((name, at)) =>
        (match ReadU64From(block, at, 0, 0)
         case Bad(e) => Err(Integer(e))
         case Got(rel, next) =>
           var path := if isRoot then name else JoinPath(prefix, name);
           Ok((Some(Child(path, true, 0, 0, WrapStart(blockStart, rel))), next)))
    else if block[pos] == KIND_FILE then
      match ReadName(block, pos + 1)
      case Err(e) => Err(e)
      case Ok((name, at)) =>
        (match ReadU64From(block, at, 0, 0)
         case Bad(e) => Err(Integer(e))
         case Got(size, then_) =>
           (match ReadI64From(block, then_, 0, 0)
            case Bad(e) => Err(Integer(e))
            case Got(mtime, next) =>
              var path := if isRoot then name else JoinPath(prefix, name);
              Ok((Some(Child(path, false, Wrap64(size), mtime, 0)), next))))
    else if IsOtherKind(block[pos]) then
      match ReadName(block, pos + 1)
      case Err(e) => Err(e)
      case Ok((_, next)) => Ok((None, next))
    else Err(UnknownType)
  }

  function WrapStart(blockStart: int, rel: nat): int {
    Wrap64(blockStart - Wrap64(rel))
  }

  function Rows(block: bytes, pos: nat, count: nat, blockStart: int, prefix: bytes, isRoot: bool)
    : Result<(seq<Child>, nat)>
    decreases count
  {
    if count == 0 then Ok(([], pos)) else
      match ReadRow(block, pos, blockStart, prefix, isRoot)
      case Err(e) => Err(e)
      case Ok((child, next)) =>
        Onto(if child.Some? then [child.value] else [], Rows(block, next, count - 1, blockStart, prefix, isRoot))
  }

  function Children(block: bytes, blockStart: int, prefix: bytes, isRoot: bool): Result<seq<Child>> {
    match ReadU64From(block, 0, 0, 0)
    case Bad(e) => Err(Integer(e))
    case Got(count, pos) =>
      (match Rows(block, pos, count, blockStart, prefix, isRoot)
       case Err(e) => Err(e)
       case Ok((children, end)) => if end != |block| then Err(Unparsed) else Ok(children))
  }

  /** More children in front of those of the remaining rows. */
  function Onto(out: seq<Child>, r: Result<(seq<Child>, nat)>): Result<(seq<Child>, nat)> {
    match r
    case Err(e) => Err(e)
    case Ok((rest, end)) => Ok((out + rest, end))
  }

  lemma OntoMore(out: seq<Child>, more: seq<Child>, r: Result<(seq<Child>, nat)>)
    ensures Onto(out + more, r) == Onto(out, Onto(more, r)) && Onto([], r) == r
  {
    if r.Ok? {
      assert (out + more) + r.value.0 == out + (more + r.value.0);
      assert [] + r.value.0 == r.value.0;
    }
  }

  method ParseCatalogDirChildren(block: bytes, blockStart: int, prefix: bytes, isRoot: bool)
    returns (r: Result<seq<Child>>)
    ensures r == Children(block, blockStart, prefix, isRoot)
  {
    hide ReadRow;
    var head := ReadU64(block, 0);
    if head.Bad? { return Err(Integer(head.error)); }
    var count, pos := head.value, head.next;
    var out: seq<Child> := [];
    ghost var whole := Rows(block, pos, count, blockStart, prefix, isRoot);
    OntoMore([], [], whole);
    for i := 0 to count
      invariant whole == Onto(out, Rows(block, pos, count - i, blockStart, prefix, isRoot))
    {
      var row := ReadRow(block, pos, blockStart, prefix, isRoot);
      if row.Err? { return Err(row.error); }
      var (child, next) := row.value;
      ghost var more := if child.Some? then [child.value] else [];
      OntoMore(out, more, Rows(block, next, count - i - 1, blockStart, prefix, isRoot));
      if child.Some? { out := out + [child.value]; }
      pos := next;
    }
    assert out + [] == out;
    if pos != |block| { return Err(Unparsed); }
    return Ok(out);
  }

  /** The table at a position: its length, then that many bytes. */
  function Listing(catalog: bytes, blockStart: int, prefix: bytes, isRoot: bool): Result<seq<Child>> {
    if blockStart < 0 || blockStart >= |catalog| then Err(OutOfRange)
    else
      match ReadU64From(catalog, blockStart, 0, 0)
      case Bad(e) => Err(Integer(e))
      case Got(tableLen, pos) =>
        if tableLen > MAX_INT - pos then Err(Panics)
        else if pos + tableLen > |catalog| then Err(TableOverflow)
        else Children(catalog[pos..pos + tableLen], blockStart, prefix, isRoot)
  }

  method ListCatalogDirChildren(catalog: bytes, blockStart: int, prefix: bytes, isRoot: bool)
    returns (r: Result<seq<Child>>)
    ensures r == Listing(catalog, blockStart, prefix, isRoot)
  {
    if blockStart < 0 || blockStart >= |catalog| { return Err(OutOfRange); }
    var table := ReadU64(catalog, blockStart);
    if table.Bad? { return Err(Integer(table.error)); }
    if table.value > MAX_INT - table.next { return Err(Panics); }
    if table.next + table.value > |catalog| { return Err(TableOverflow); }
    r := ParseCatalogDirChildren(catalog[table.next..table.next + table.value], blockStart, prefix, isRoot);
  }

  // The whole tree.

  /** What a walk gives, or nothing if it calls itself deeper than it may. */
  type Walked = Option<Result<seq<Child>>>

  /** Every entry below a table: each child, and behind a directory all that is in it. */
  function Walk(catalog: bytes, blockStart: int, prefix: bytes, isRoot: bool, depth: nat): Walked
    decreases depth, 0, 0
  {
    if depth == 0 then None else
      match Listing(catalog, blockStart, prefix, isRoot)
      case Err(e) => Some(Err(e))
      case Ok(children) => WalkAll(catalog, children, depth - 1)
  }

  function WalkAll(catalog: bytes, children: seq<Child>, depth: nat): Walked
    decreases depth, 2, |children|
  {
    if children == [] then Some(Ok([])) else
      match WalkChild(catalog, children[0], depth)
      case None => None
      case Some(Err(e)) => Some(Err(e))
      case Some(Ok(below)) => Before(below, WalkAll(catalog, children[1..], depth))
  }

  /** A child and, if it is a directory, all below it. */
  function WalkChild(catalog: bytes, c: Child, depth: nat): Walked
    decreases depth, 1, 0
  {
    if c.isDir then Before([c], Walk(catalog, c.dirStart, c.path, false, depth)) else Some(Ok([c]))
  }

  function Before(out: seq<Child>, r: Walked): Walked {
    match r
    case Some(Ok(more)) => Some(Ok(out + more))
    case _ => r
  }

  lemma BeforeMore(out: seq<Child>, more: seq<Child>, r: Walked)
    ensures Before(out + more, r) == Before(out, Before(more, r)) && Before([], r) == r
  {
    if r.Some? && r.value.Ok? {
      assert (out + more) + r.value.value == out + (more + r.value.value);
      assert [] + r.value.value == r.value.value;
    }
  }

  /** The walk, as far as calls may be nested `depth` deep. */
  method WalkCatalogDir(catalog: bytes, blockStart: int, prefix: bytes, isRoot: bool, depth: nat) returns (r: Walked)
    ensures r == Walk(catalog, blockStart, prefix, isRoot, depth)
    decreases depth
  {
    hide Listing;
    if depth == 0 { return None; }
    var children := ListCatalogDirChildren(catalog, blockStart, prefix, isRoot);
    if children.Err? { return Some(Err(children.error)); }
    var out: seq<Child> := [];
    ghost var whole := WalkAll(catalog, children.value, depth - 1);
    BeforeMore([], [], whole);
    assert children.value[0..] == children.value;
    for i := 0 to |children.value|
      invariant whole == Before(out, WalkAll(catalog, children.value[i..], depth - 1))
    {
      var c := children.value[i];
      ghost var rest := WalkAll(catalog, children.value[i + 1..], depth - 1);
      assert children.value[i..][1..] == children.value[i + 1..] && children.value[i..][0] == c;
      if c.isDir {
        var below := WalkCatalogDir(catalog, c.dirStart, c.path, false, depth - 1);
        if below.None? || below.value.Err? { return below; }
        BeforeMore(out, [c] + below.value.value, rest);
        out := out + ([c] + below.value.value);
      } else {
        BeforeMore(out, [c], rest);
        out := out + [c];
      }
    }
    assert out + [] == out;
    return Some(Ok(out));
  }

  // Where to start, and the way down to a directory.

  function RootPos(catalog: bytes): Result<int> {
    if |catalog| < 16 then Err(TooShort)
    else if !(D.CATALOG_MAGIC <= catalog) then Err(BadMagic)
    else Ok(AsInt(U64(catalog, |catalog| - 8)))
  }

  datatype DirRef = DirRef(blockStart: int, prefix: bytes, isRoot: bool)

  /** The root table, or the one directory it consists of. */
  function ContentRoot(catalog: bytes): Result<DirRef> {
    match RootPos(catalog)
    case Err(e) => Err(e)
    case Ok(pos) =>
      (match Listing(catalog, pos, [], true)
       case Err(e) => Err(e)
       case Ok(children) =>
         if |children| == 1 && children[0].isDir then Ok(DirRef(children[0].dirStart, [], false))
         else Ok(DirRef(pos, [], true)))
  }

  method CatalogContentRoot(catalog: bytes) returns (r: Result<DirRef>)
    ensures r == ContentRoot(catalog)
  {
    hide Listing;
    var pos := RootPos(catalog);
    if pos.Err? { return Err(pos.error); }
    var children := ListCatalogDirChildren(catalog, pos.value, [], true);
    if children.Err? { return Err(children.error); }
    if |children.value| == 1 && children.value[0].isDir {
      return Ok(DirRef(children.value[0].dirStart, [], false));
    }
    return Ok(DirRef(pos.value, [], true));
  }

  function NormalizeCatalogDirPath(dirPath: bytes): bytes {
    TrimSlashes(Backslashed(TrimSpace(dirPath)))
  }

  /** The part of a path behind its last separator. */
  function BaseName(path: bytes): bytes {
    if path == [] || path[|path| - 1] == BACKSLASH || path[|path| - 1] == SLASH then []
    else BaseName(path[..|path| - 1]) + [path[|path| - 1]]
  }

  function CatalogDirName(path: bytes): bytes {
    BaseName(TrimRightSlashes(path))
  }

  /** The path cut at its backslashes, empty parts left out. */
  function Parts(path: bytes): seq<bytes> {
    PartsFrom(path, [])
  }

  function PartsFrom(path: bytes, part: bytes): seq<bytes> {
    if path == [] then (if part == [] then [] else [part])
    else if path[0] == BACKSLASH then (if part == [] then [] else [part]) + PartsFrom(path[1..], [])
    else PartsFrom(path[1..], part + [path[0]])
  }

  function FindDir(children: seq<Child>, part: bytes): Option<Child> {
    if children == [] then None
    else if children[0].isDir && EqualFold(CatalogDirName(children[0].path), part) then Some(children[0])
    else FindDir(children[1..], part)
  }

  function Descend(catalog: bytes, ref: DirRef, parts: seq<bytes>): Result<DirRef>
    decreases |parts|
  {
    if parts == [] then Ok(ref) else
      match Listing(catalog, ref.blockStart, ref.prefix, ref.isRoot)
      case Err(e) => Err(e)
      case Ok(children) =>
        var d := FindDir(children, parts[0]);
        if d.None? then Err(NotFound) else Descend(catalog, DirRef(d.value.dirStart, d.value.path, false), parts[1..])
  }

  function Resolved(catalog: bytes, dirPath: bytes): Result<DirRef> {
    match ContentRoot(catalog)
    case Err(e) => Err(e)
    case Ok(root) => Descend(catalog, root, Parts(NormalizeCatalogDirPath(dirPath)))
  }

  method ResolveCatalogDir(catalog: bytes, dirPath: bytes) returns (r: Result<DirRef>)
    ensures r == Resolved(catalog, dirPath)
  {
    hide Listing, ContentRoot, Parts, NormalizeCatalogDirPath, CatalogDirName;
    var start := CatalogContentRoot(catalog);
    if start.Err? { return start; }
    var ref, rest := start.value, Parts(NormalizeCatalogDirPath(dirPath));
    while rest != []
      invariant Descend(catalog, ref, rest) == Descend(catalog, start.value, Parts(NormalizeCatalogDirPath(dirPath)))
      decreases |rest|
    {
      var children := ListCatalogDirChildren(catalog, ref.blockStart, ref.prefix, ref.isRoot);
      if children.Err? { return Err(children.error); }
      var i := 0;
      while i < |children.value|
               && !(children.value[i].isDir && EqualFold(CatalogDirName(children.value[i].path), rest[0]))
        invariant 0 <= i <= |children.value|
        invariant FindDir(children.value[i..], rest[0]) == FindDir(children.value, rest[0])
      {
        assert children.value[i..][1..] == children.value[i + 1..];
        i := i + 1;
      }
      if i == |children.value| { return Err(NotFound); }
      ref := DirRef(children.value[i].dirStart, children.value[i].path, false);
      rest := rest[1..];
    }
    return Ok(ref);
  }

  function EntriesOf(catalog: bytes, dirPath: bytes): Result<seq<Child>> {
    match Resolved(catalog, dirPath)
    case Err(e) => Err(e)
    case Ok(ref) => Listing(catalog, ref.blockStart, ref.prefix, ref.isRoot)
  }

  method ListCatalogDirEntries(catalog: bytes, dirPath: bytes) returns (r: Result<seq<Child>>)
    ensures r == EntriesOf(catalog, dirPath)
  {
    hide Listing, Resolved;
    var ref := ResolveCatalogDir(catalog, dirPath);
    if ref.Err? { return Err(ref.error); }
    r := ListCatalogDirChildren(catalog, ref.value.blockStart, ref.value.prefix, ref.value.isRoot);
  }

  /** All entries, from wherever the content begins. */
  function AllEntries(catalog: bytes, depth: nat): Walked {
    match ContentRoot(catalog)
    case Err(e) => Some(Err(e))
    case Ok(root) => Walk(catalog, root.blockStart, root.prefix, root.isRoot, depth)
  }

  method ForEachCatalogFile(catalog: bytes, depth: nat) returns (r: Walked)
    ensures r == AllEntries(catalog, depth)
  {
    hide ContentRoot, Walk;
    var root := CatalogContentRoot(catalog);
    if root.Err? { return Some(Err(root.error)); }
    r := WalkCatalogDir(catalog, root.value.blockStart, root.value.prefix, root.value.isRoot, depth);
  }
}
