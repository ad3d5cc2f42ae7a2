/** One way to lay a tree out as a catalog: the tables of a directory's subdirectories, then its own. */
module CatalogWriter {
  import opened Bytes
  import opened Catalog
  import opened CatalogTheorem
  import opened CatalogLookup
  import D = Didx

  /** A tree with no positions in it. */
  datatype Tree =
    | Empty
    | Leaf(name: bytes, size: nat, mtime: int, next: Tree)
    | Folder(name: bytes, kids: Tree, next: Tree)
    | Special(kind: byte, name: bytes, next: Tree)

  predicate Writable(t: Tree) {
    match t
    case Empty => true
    case Leaf(_, size, mtime, next) => size <= MAX_INT && -0x8000_0000_0000_0000 <= mtime <= MAX_INT && Writable(next)
    case Folder(name, kids, next) => CleanName(name) && Writable(kids) && Writable(next)
    case Special(kind, _, next) => IsOtherKind(kind) && Writable(next)
  }

  /** The tables below a directory, written from `base` on, and the entries that refer to them. */
  function Below(t: Tree, base: nat): (bytes, Entries) {
    match t
    case Empty => ([], Nil)
    case Leaf(name, size, mtime, next) => var (b, e) := Below(next, base); (b, File(name, size, mtime, e))
    case Special(kind, name, next) => var (b, e) := Below(next, base); (b, Other(kind, name, e))
    case Folder(name, kids, next) =>
      var (b, e) := Below(kids, base);
      var at := base + |b|;
      var table := DirTable(e, at);
      var (b', e') := Below(next, at + |table|);
      (b + (table + b'), Dir(name, at, e, e'))
  }

  function WriteCatalog(t: Tree): bytes {
    var (b, e) := Below(t, 8);
    D.CATALOG_MAGIC + (b + (DirTable(e, 8 + |b|) + LE64(8 + |b|)))
  }

  /** The tree again, positions left out. */
  function Unplaced(s: Entries): Tree {
    match s
    case Nil => Empty
    case File(name, size, mtime, next) => Leaf(name, size, mtime, Unplaced(next))
    case Dir(name, _, kids, next) => Folder(name, Unplaced(kids), Unplaced(next))
    case Other(kind, name, next) => Special(kind, name, Unplaced(next))
  }

  lemma {:induction false} BelowIsPlaced(t: Tree, base: nat, catalog: bytes, start: nat)
    requires Writable(t) && At(catalog, base, Below(t, base).0) && start >= base + |Below(t, base).0|
    ensures var e := Below(t, base).1; KidsPlaced(catalog, start, e) && Fit(e) && Clean(e) && Unplaced(e) == t
    decreases t
  {
    hide DirTable, CleanName;
    match t {
      case Empty =>
      case Leaf(_, _, _, next) => BelowIsPlaced(next, base, catalog, start);
      case Special(_, _, next) => BelowIsPlaced(next, base, catalog, start);
      case Folder(name, kids, next) =>
        var (b, e) := Below(kids, base);
        var at := base + |b|;
        var table := DirTable(e, at);
        var (b', _) := Below(next, at + |table|);
        AtSplit(catalog, base, b, table + b');
        AtSplit(catalog, at, table, b');
        TableNotEmpty(e, at);
        BelowIsPlaced(kids, base, catalog, at);
        BelowIsPlaced(next, at + |table|, catalog, start);
    }
  }

  lemma TableNotEmpty(s: Entries, start: nat)
    ensures |DirTable(s, start)| >= 2
  {
    hide RowBytes;
  }

  /** Every tree can be written as a catalog, so what is proved of catalogs holds of every tree. */
  lemma EveryTreeHasACatalog(t: Tree)
    requires Writable(t) && |WriteCatalog(t)| <= MAX_INT / 2
    ensures var (b, e) := Below(t, 8);
      IsCatalog(WriteCatalog(t), 8 + |b|, e) && Unplaced(e) == t
  {
    hide DirTable, Below, LE64, Writable, KidsPlaced;
    var (b, e) := Below(t, 8);
    var catalog := WriteCatalog(t);
    var table := DirTable(e, 8 + |b|);
    var tail := LE64(8 + |b|);
    TableNotEmpty(e, 8 + |b|);
    assert At(catalog, 0, D.CATALOG_MAGIC + (b + (table + tail)));
    AtSplit(catalog, 0, D.CATALOG_MAGIC, b + (table + tail));
    AtSplit(catalog, 8, b, table + tail);
    AtSplit(catalog, 8 + |b|, table, tail);
    BelowIsPlaced(t, 8, catalog, 8 + |b|);
  }
}
