/** Random access, the stream index and the tree agree on every path. */
module PxarLookupTheorem {
  import opened Bytes
  import opened PxarFormat
  import opened Paths
  import opened GoodbyeSearch
  import opened PxarRead

  // The skips land where the format says.

  /** What the readers see of a child: its name, its mode and where its body starts. */
  lemma ReadHeadAt(data: bytes, pos: nat, name: bytes, mode: nat, extra: bytes)
    requires At(data, pos, Head(name, mode, extra)) && |data| <= MAX_INT && mode < TWO_64
    ensures ReadFilename(data, pos) == Ok((name, pos + 17 + |name|))
    ensures ReadEntry(data, pos + 17 + |name|) == Ok((mode, pos + |Head(name, mode, extra)|))
    ensures ReadHead(data, pos) == Ok((name, mode, pos + |Head(name, mode, extra)|))
    ensures pos + 8 <= |data| && U64(data, pos) == FILENAME
  {
    hide FromLE, ToLE, Head;
    HeadAt(data, pos, name, mode, extra);
  }

  lemma ReadPayloadAt(data: bytes, pos: nat, payload: bytes)
    requires At(data, pos, Block(PAYLOAD, payload)) && |data| <= MAX_INT
    ensures ReadPayload(data, pos) == Ok(payload) && ReadBlock(data, pos) == Ok(pos + 16 + |payload|)
  {
    hide FromLE, ToLE, BlockHeader;
    BlockAt(data, pos, PAYLOAD, payload);
  }

  lemma GoodbyeBlockAt(data: bytes, pos: nat, table: seq<GoodbyeItem>)
    requires At(data, pos, GoodbyeBlock(table)) && |data| <= MAX_INT
    ensures pos + 16 <= |data| && U64(data, pos) == GOODBYE
    ensures ReadBlock(data, pos) == Ok(pos + |GoodbyeBlock(table)|)
  {
    hide FromLE, ToLE, TableBytes, Block;
    BlockAt(data, pos, GOODBYE, TableBytes(table));
  }

  /** One child stepped over: its head is read and its body skipped. */
  lemma {:induction false} OverChild(data: bytes, pos: nat, s: Siblings)
    requires s != End && At(data, pos, Encode(s)) && WellFormed(s) && |data| <= MAX_INT
    ensures var body := pos + |Head(s.name, s.mode, s.extra)|; var next := pos + |Encode(s)| - |Encode(s.next)|;
      && pos + 8 <= |data| && U64(data, pos) == FILENAME
      && ReadHead(data, pos) == Ok((s.name, s.mode, body)) && SkipBody(data, s.mode, body) == Ok(next)
      && pos < next && At(data, next, Encode(s.next))
    decreases s, 0
  {
    hide FromLE, ToLE, Head, Block, GoodbyeBlock, At, IsDirMode, ReadHead, ReadBlock, SkipDir;
    var body := pos + |Head(s.name, s.mode, s.extra)|;
    if s.File? { FileParts(data, pos, s); } else { DirParts(data, pos, s); }
    ReadHeadAt(data, pos, s.name, s.mode, s.extra);
    if s.File? {
      ReadPayloadAt(data, body, s.data);
    } else {
      SkipAt(data, body, s.kids, s.table);
    }
  }

  lemma {:induction false} SkipAt(data: bytes, pos: nat, s: Siblings, table: seq<GoodbyeItem>)
    requires At(data, pos, Encode(s)) && At(data, pos + |Encode(s)|, GoodbyeBlock(table))
    requires WellFormed(s) && |data| <= MAX_INT
    ensures SkipDir(data, pos) == Ok(pos + |Encode(s)| + |GoodbyeBlock(table)|)
    decreases s, 1
  {
    hide FromLE, ToLE, Head, Block, GoodbyeBlock, At, IsDirMode, ReadHead, ReadBlock, SkipBody, Encode;
    if s == End {
      EncodeEnd();
      GoodbyeBlockAt(data, pos, table);
    } else {
      OverChild(data, pos, s);
      SkipAt(data, pos + |Encode(s)| - |Encode(s.next)|, s.next, table);
    }
  }

  lemma EncodeEnd()
    ensures Encode(End) == []
  {
  }

  lemma {:induction false} ScanAt(data: bytes, pos: nat, s: Siblings, table: seq<GoodbyeItem>)
    requires At(data, pos, Encode(s)) && At(data, pos + |Encode(s)|, GoodbyeBlock(table))
    requires WellFormed(s) && |data| <= MAX_INT
    ensures Scan(data, pos) == Ok(pos + |Encode(s)|)
    decreases s
  {
    hide FromLE, ToLE, GoodbyeBlock, At, IsDirMode, ReadHead, SkipBody, Encode;
    if s == End {
      EncodeEnd();
      GoodbyeBlockAt(data, pos, table);
    } else {
      OverChild(data, pos, s);
      ScanAt(data, pos + |Encode(s)| - |Encode(s.next)|, s.next, table);
    }
  }

  predicate Words(table: seq<GoodbyeItem>) {
    forall i <- table :: i.hash < TWO_64 && i.offset < TWO_64 && i.length < TWO_64
  }

  lemma {:induction false} ItemsAtTable(data: bytes, pos: nat, table: seq<GoodbyeItem>)
    requires At(data, pos, TableBytes(table)) && Words(table)
    ensures ItemsAt(data, pos, |table|) == table
    decreases |table|
  {
    hide ToLE, FromLE;
    if table != [] {
      var i, rest := table[0], TableBytes(table[1..]);
      AtSplitFour(data, pos, LE64(i.hash), LE64(i.offset), LE64(i.length), rest);
      AtU64(data, pos, i.hash);
      AtU64(data, pos + 8, i.offset);
      AtU64(data, pos + 16, i.length);
      ItemsAtTable(data, pos + 24, table[1..]);
    }
  }

  lemma GoodbyeTableAt(data: bytes, pos: nat, table: seq<GoodbyeItem>)
    requires At(data, pos, GoodbyeBlock(table)) && |data| <= MAX_INT && Words(table) && table != []
    ensures GoodbyeTable(data, pos) == Ok(table)
  {
    hide ToLE, FromLE, TableBytes, Block, ItemsAt;
    BlockAt(data, pos, GOODBYE, TableBytes(table));
    ItemsAtTable(data, pos + 16, table);
  }

  // What a goodbye table has to say.

  /** `c` is the chain `s` from some child on. */
  predicate Suffix(c: Siblings, s: Siblings) {
    c == s || (s != End && Suffix(c, s.next))
  }

  /** The chain from the first child whose name hashes to `h`, or `End`. */
  function ChildWith(hashOf: bytes -> nat, s: Siblings, h: nat): (c: Siblings)
    ensures Suffix(c, s) && (c != End ==> hashOf(c.name) == h)
  {
    if s == End || hashOf(s.name) == h then s else ChildWith(hashOf, s.next, h)
  }

  predicate DistinctHashes(hashOf: bytes -> nat, s: Siblings) {
    s == End || (ChildWith(hashOf, s.next, hashOf(s.name)) == End && DistinctHashes(hashOf, s.next))
  }

  /**
   A search tree of exactly the children, each with its distance back from the goodbye
   block, closed by the tail item.
   */
  ghost predicate TableOf(hashOf: bytes -> nat, s: Siblings, table: seq<GoodbyeItem>) {
    && Words(table) && table != [] && table[|table| - 1].hash == GOODBYE_TAIL
    && SearchTree(table, |table| - 1)
    && (forall i | 0 <= i < |table| - 1 ::
          var c := ChildWith(hashOf, s, table[i].hash);
          c != End && table[i].offset == |Encode(c)|)
    && (forall h :: ChildWith(hashOf, s, h) != End ==> exists i | 0 <= i < |table| - 1 :: table[i].hash == h)
  }

  ghost predicate GoodTables(hashOf: bytes -> nat, s: Siblings) {
    match s
    case End => true
    case File(_, _, _, _, next) => GoodTables(hashOf, next)
    case Dir(_, _, _, kids, table, next) =>
      TableOf(hashOf, kids, table) && DistinctHashes(hashOf, kids)
      && GoodTables(hashOf, kids) && GoodTables(hashOf, next)
  }

  ghost predicate GoodArchiveTables(hashOf: bytes -> nat, a: Archive) {
    TableOf(hashOf, a.kids, a.table) && DistinctHashes(hashOf, a.kids) && GoodTables(hashOf, a.kids)
  }

  /** What the descent finds, said of the tree: names are found by hash and then compared. */
  function Resolve(hashOf: bytes -> nat, s: Siblings, path: seq<bytes>): Result<bytes>
    decreases |path|
  {
    if path == [] then Err(PathEmpty)
    else
      var c := ChildWith(hashOf, s, hashOf(path[0]));
      if c == End then Err(FileNotFound)
      else if !EqualFold(c.name, path[0]) then Err(NameMismatch)
      else if |path| == 1 then if c.Dir? then Err(IsDirectory) else Ok(c.data)
      else if c.File? then Err(NotDirectory)
      else Resolve(hashOf, c.kids, path[1..])
  }

  lemma {:induction false} SuffixAt(data: bytes, pos: nat, s: Siblings, c: Siblings)
    requires At(data, pos, Encode(s)) && Suffix(c, s)
    ensures |Encode(c)| <= |Encode(s)| && At(data, pos + |Encode(s)| - |Encode(c)|, Encode(c))
    decreases s
  {
    hide ToLE, FromLE, Head, GoodbyeBlock, Block, At;
    if c != s {
      if s.File? { FileParts(data, pos, s); } else { DirParts(data, pos, s); }
      SuffixAt(data, pos + |Encode(s)| - |Encode(s.next)|, s.next, c);
    }
  }

  lemma {:induction false} SuffixKeeps(hashOf: bytes -> nat, s: Siblings, c: Siblings)
    requires Suffix(c, s) && WellFormed(s) && GoodTables(hashOf, s)
    ensures WellFormed(c) && GoodTables(hashOf, c)
  {
    hide TableOf, IsDirMode, DistinctHashes;
    if c != s {
      SuffixKeeps(hashOf, s.next, c);
    }
  }

  lemma TableAnswers(hashOf: bytes -> nat, s: Siblings, table: seq<GoodbyeItem>, h: nat)
    requires TableOf(hashOf, s, table)
    ensures var c := ChildWith(hashOf, s, h);
      match Search(table, h)
      case NotFound => c == End
      case Found(i) => c != End && table[i].offset == |Encode(c)|
  {
    hide Encode, ToLE, FromLE;
    SearchIsExact(table, h);
  }

  lemma LookupAt(hashOf: bytes -> nat, data: bytes, pos: nat, s: Siblings, table: seq<GoodbyeItem>, name: bytes)
    requires At(data, pos, Encode(s)) && At(data, pos + |Encode(s)|, GoodbyeBlock(table))
    requires WellFormed(s) && |data| <= MAX_INT && TableOf(hashOf, s, table) && GoodTables(hashOf, s)
    ensures var c := ChildWith(hashOf, s, hashOf(name)); var r := LookupChildStart(hashOf, data, pos, name);
      if c == End then r == Err(FileNotFound)
      else r == Ok(pos + |Encode(s)| - |Encode(c)|) && |Encode(c)| <= |Encode(s)| && At(data, r.value, Encode(c))
  {
    hide ToLE, FromLE, Encode, GoodbyeBlock, At, GoodTables, TableOf, WellFormed, Search, ChildWith, GoodbyeTable,
         Scan, Suffix;
    assert Words(table) && table != [] by { TableFacts(hashOf, s, table); }
    ScanAt(data, pos, s, table);
    GoodbyeTableAt(data, pos + |Encode(s)|, table);
    var h := hashOf(name);
    TableAnswers(hashOf, s, table, h);
    FitsInData(data, pos, Encode(s));
    var c := ChildWith(hashOf, s, h);
    if c != End {
      SuffixAt(data, pos, s, c);
      SuffixKeeps(hashOf, s, c);
      FirstHead(data, pos + |Encode(s)| - |Encode(c)|, c);
    }
  }

  lemma TableFacts(hashOf: bytes -> nat, s: Siblings, table: seq<GoodbyeItem>)
    requires TableOf(hashOf, s, table)
    ensures Words(table) && table != []
  {
  }

  lemma FitsInData(data: bytes, pos: nat, part: bytes)
    requires At(data, pos, part)
    ensures pos + |part| <= |data|
  {
  }

  lemma FirstHead(data: bytes, pos: nat, c: Siblings)
    requires c != End && At(data, pos, Encode(c)) && WellFormed(c) && |data| <= MAX_INT
    ensures var body := pos + |Head(c.name, c.mode, c.extra)|;
      && ReadFilename(data, pos) == Ok((c.name, pos + 17 + |c.name|))
      && ReadEntry(data, pos + 17 + |c.name|) == Ok((c.mode, body))
      && pos + 16 <= |data| && U64(data, pos) == FILENAME
  {
    hide ToLE, FromLE, Head, GoodbyeBlock, Block, At, IsDirMode, ReadFilename, ReadEntry;
    if c.File? { FileParts(data, pos, c); } else { DirParts(data, pos, c); }
    ReadHeadAt(data, pos, c.name, c.mode, c.extra);
    HeadFits(data, pos, c.name, c.mode, c.extra);
  }

  lemma HeadFits(data: bytes, pos: nat, name: bytes, mode: nat, extra: bytes)
    requires At(data, pos, Head(name, mode, extra))
    ensures pos + 41 <= |data|
  {
    hide Head;
  }

  /** From a directory's content on, the descent through the bytes is the descent through the tree. */
  lemma {:induction false} FindAt(hashOf: bytes -> nat, data: bytes, pos: nat, s: Siblings,
                                  table: seq<GoodbyeItem>, path: seq<bytes>)
    requires At(data, pos, Encode(s)) && At(data, pos + |Encode(s)|, GoodbyeBlock(table))
    requires WellFormed(s) && |data| <= MAX_INT && TableOf(hashOf, s, table) && GoodTables(hashOf, s)
    requires pos > 0
    ensures FindInPxar(hashOf, data, pos, path) == Resolve(hashOf, s, path)
    decreases |path|
  {
    hide ToLE, FromLE, Encode, GoodbyeBlock, Head, Block, At, TableOf, ReadFilename, ReadEntry, ReadPayload,
         LookupChildStart, EqualFold, IsDirMode;
    if path != [] {
      LookupAt(hashOf, data, pos, s, table, path[0]);
      var c := ChildWith(hashOf, s, hashOf(path[0]));
      if c != End {
        SuffixKeeps(hashOf, s, c);
        var start := pos + |Encode(s)| - |Encode(c)|;
        FirstHead(data, start, c);
        if c.File? {
          FileParts(data, start, c);
          ReadPayloadAt(data, start + |Head(c.name, c.mode, c.extra)|, c.data);
        } else {
          DirParts(data, start, c);
          FindAt(hashOf, data, start + |Head(c.name, c.mode, c.extra)|, c.kids, c.table, path[1..]);
        }
      }
    }
  }

  /** For every path, present or not, random access answers what the tree says. */
  lemma RandomAccessIsExact(hashOf: bytes -> nat, a: Archive, path: seq<bytes>)
    requires WellFormedArchive(a) && |EncodeArchive(a)| <= MAX_INT && GoodArchiveTables(hashOf, a) && path != []
    ensures FindInPxar(hashOf, EncodeArchive(a), 0, path) == Resolve(hashOf, a.kids, path)
  {
    hide ToLE, FromLE, Encode, GoodbyeBlock, EntryBlock, At, TableOf, GoodTables, FindInPxar, Resolve, IsDirMode;
    var data, body := EncodeArchive(a), |EntryBlock(a.mode, a.extra)|;
    ArchiveParts(data, a);
    RootBlockAt(data, a.mode, a.extra);
    FindAt(hashOf, data, body, a.kids, a.table, path);
    SkipsRoot(hashOf, data, body, path);
  }

  lemma RootBlockAt(data: bytes, mode: nat, extra: bytes)
    requires At(data, 0, EntryBlock(mode, extra)) && |data| <= MAX_INT
    ensures ReadBlock(data, 0) == Ok(|EntryBlock(mode, extra)|) && |EntryBlock(mode, extra)| > 0
  {
    hide ToLE, FromLE, BlockHeader;
    BlockAt(data, 0, ENTRY, LE64(mode) + extra);
  }

  lemma SkipsRoot(hashOf: bytes -> nat, data: bytes, body: nat, path: seq<bytes>)
    requires path != [] && ReadBlock(data, 0) == Ok(body) && body > 0
    ensures FindInPxar(hashOf, data, 0, path) == FindInPxar(hashOf, data, body, path)
  {
    hide LookupChildStart, ReadBlock, ReadFilename, ReadEntry, ReadPayload, EqualFold, IsDirMode;
  }
}
