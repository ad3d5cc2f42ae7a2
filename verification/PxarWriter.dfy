/**
 What the archive writer puts out for a tree: the blocks in order, a goodbye table for each directory from the
 positions it has counted, and for a replayed file its headers and whatever the cache has for it.
 */
module PxarWriter {
  import opened Bytes
  import opened PxarFormat
  import opened PxarTokens
  import opened PxarTrees
  import opened PxarLookupTheorem
  import opened PxarRead
  import GoodbyeSearch
  import opened GoodbyeTables
  import opened GoodbyeBst
  import opened ChunkSpans
  import opened FI = FastIncremental
  import opened WriterCuts

  const FILE_MODE: nat := 0x81FF
  const DIR_MODE: nat := 0x41FF

  /** What the file system says of a file: its key in the cache and its stat. */
  datatype Info = Info(key: bytes, stat: Stat)

  /** A directory's entries in the order they are read. */
  datatype Tree =
    | Nothing
    | OneFile(name: bytes, extra: bytes, data: bytes, info: Info, next: Tree)
    | OneDir(name: bytes, extra: bytes, kids: Tree, next: Tree)

  /** The directory to back up: the rest of its own entry, and what is in it. */
  datatype Source = Source(extra: bytes, top: Tree)

  function Count(t: Tree): nat {
    if t == Nothing then 0 else 1 + Count(t.next)
  }

  /** The writer's buffer leaves in slices of this size. */
  const FLUSH_SCRATCH: nat := 0x4_0000

  /** Every entry has a name, and a file's headers fit into one slice. */
  predicate NamesGiven(t: Tree) {
    match t
    case Nothing => true
    case OneFile(name, extra, _, _, next) =>
      name != [] && |Head(name, FILE_MODE, extra)| + 16 <= FLUSH_SCRATCH && NamesGiven(next)
    case OneDir(name, _, kids, next) => name != [] && NamesGiven(kids) && NamesGiven(next)
  }

  /** The file is not read but replayed. */
  predicate Replays(cached: map<bytes, FileRecord>, info: Info) {
    CanReuse(cached, info.key, info.stat).Some? && SpansReusable(cached[info.key].spans)
  }

  predicate NothingReplayed(cached: map<bytes, FileRecord>, t: Tree) {
    match t
    case Nothing => true
    case OneFile(_, _, _, info, next) => !Replays(cached, info) && NothingReplayed(cached, next)
    case OneDir(_, _, kids, next) => NothingReplayed(cached, kids) && NothingReplayed(cached, next)
  }

  /** All that is replayed is as long as the file itself. */
  predicate OnlyPayloads(cached: map<bytes, FileRecord>, t: Tree) {
    match t
    case Nothing => true
    case OneFile(_, _, _, info, next) =>
      (Replays(cached, info) ==> WantedLen(cached[info.key]) == info.stat.size) && OnlyPayloads(cached, next)
    case OneDir(_, _, kids, next) => OnlyPayloads(cached, kids) && OnlyPayloads(cached, next)
  }

  // What is written.

  function LeafOf(t: Tree): Token
    requires t.OneFile?
  {
    Leaf(t.name, FILE_MODE, t.extra, t.data)
  }

  function FileLength(t: Tree): nat
    requires t.OneFile?
  {
    |Head(t.name, FILE_MODE, t.extra)| + 16 + |t.data|
  }

  /** How far the writer's own position moves: it stays where it is for a replayed file. */
  function Advance(cached: map<bytes, FileRecord>, t: Tree): nat {
    match t
    case Nothing => 0
    case OneFile(_, _, _, info, next) =>
      (if Replays(cached, info) then 0 else FileLength(t)) + Advance(cached, next)
    case OneDir(name, extra, kids, next) =>
      |Head(name, DIR_MODE, extra)| + Advance(cached, kids) + (16 + 24 * (Count(kids) + 1)) + Advance(cached, next)
  }

  lemma AdvanceShrinks(cached: map<bytes, FileRecord>, t: Tree)
    requires t != Nothing
    ensures Advance(cached, t.next) <= Advance(cached, t)
  {
    hide Head, Replays;
  }

  /** The rows of the entries' goodbye table, as they are found. */
  function Rows(hashOf: bytes -> nat, cached: map<bytes, FileRecord>, t: Tree): (rows: seq<GoodbyeItem>)
    ensures |rows| == Count(t)
  {
    if t == Nothing then [] else
      var here, after := Advance(cached, t), Advance(cached, t.next);
      [GoodbyeItem(hashOf(t.name), here, here - after)] + Rows(hashOf, cached, t.next)
  }

  function TableWritten(hashOf: bytes -> nat, cached: map<bytes, FileRecord>, entry: nat, t: Tree)
    : (r: seq<GoodbyeItem>)
    ensures |r| == Count(t) + 1
  {
    Table(Sorted(Rows(hashOf, cached, t)), entry + Advance(cached, t))
  }

  /** The tree with the tables the writer gives it. */
  function Written(hashOf: bytes -> nat, cached: map<bytes, FileRecord>, t: Tree): Siblings {
    match t
    case Nothing => End
    case OneFile(name, extra, data, _, next) => File(name, FILE_MODE, extra, data, Written(hashOf, cached, next))
    case OneDir(name, extra, kids, next) =>
      Dir(name, DIR_MODE, extra, Written(hashOf, cached, kids),
          TableWritten(hashOf, cached, |EntryBlock(DIR_MODE, extra)|, kids), Written(hashOf, cached, next))
  }

  function WrittenArchive(hashOf: bytes -> nat, cached: map<bytes, FileRecord>, src: Source): Archive {
    Archive(DIR_MODE, src.extra, Written(hashOf, cached, src.top),
            TableWritten(hashOf, cached, |EntryBlock(DIR_MODE, src.extra)|, src.top))
  }

  /** The archive the source should have: written with nothing replayed. */
  function ArchiveOf(hashOf: bytes -> nat, src: Source): Archive {
    WrittenArchive(hashOf, map[], src)
  }

  function OriginOf(origin: map<bytes, bytes>, key: bytes): bytes {
    if key in origin then origin[key] else []
  }

  /** A file's bytes in the stream: its block, or its headers and what the cached chunks of its key hold. */
  function FileBytes(cached: map<bytes, FileRecord>, origin: map<bytes, bytes>, t: Tree): bytes
    requires t.OneFile?
  {
    if Replays(cached, t.info) then LeafStart(LeafOf(t), 0) + OriginOf(origin, t.info.key) else TokenBytes(LeafOf(t))
  }

  /** The bytes of the stream. */
  function Emitted(hashOf: bytes -> nat, cached: map<bytes, FileRecord>, origin: map<bytes, bytes>, t: Tree): bytes {
    match t
    case Nothing => []
    case OneFile(_, _, _, _, next) => FileBytes(cached, origin, t) + Emitted(hashOf, cached, origin, next)
    case OneDir(name, extra, kids, next) =>
      Head(name, DIR_MODE, extra)
      + (Emitted(hashOf, cached, origin, kids)
         + (GoodbyeBlock(TableWritten(hashOf, cached, |EntryBlock(DIR_MODE, extra)|, kids))
            + Emitted(hashOf, cached, origin, next)))
  }

  function EnterOf(t: Tree): Token
    requires t.OneDir?
  {
    Enter(t.name, DIR_MODE, t.extra)
  }

  /** All of a directory behind its own entry, whose length is `entry`. */
  function ListTokens(hashOf: bytes -> nat, cached: map<bytes, FileRecord>, entry: nat, t: Tree): seq<Token> {
    Tokens(Written(hashOf, cached, t)) + [Leave(TableWritten(hashOf, cached, entry, t))]
  }

  function ListBytes(hashOf: bytes -> nat, cached: map<bytes, FileRecord>, origin: map<bytes, bytes>, entry: nat,
                     t: Tree): bytes
  {
    Emitted(hashOf, cached, origin, t) + GoodbyeBlock(TableWritten(hashOf, cached, entry, t))
  }

  // The first entry of a list by itself.

  function EntryTokens(hashOf: bytes -> nat, cached: map<bytes, FileRecord>, t: Tree): seq<Token>
    requires t != Nothing
  {
    if t.OneFile? then [LeafOf(t)] else
      [EnterOf(t)] + ListTokens(hashOf, cached, |EntryBlock(DIR_MODE, t.extra)|, t.kids)
  }

  function EntryBytes(hashOf: bytes -> nat, cached: map<bytes, FileRecord>, origin: map<bytes, bytes>, t: Tree): bytes
    requires t != Nothing
  {
    if t.OneFile? then FileBytes(cached, origin, t) else
      TokenBytes(EnterOf(t)) + ListBytes(hashOf, cached, origin, |EntryBlock(DIR_MODE, t.extra)|, t.kids)
  }

  lemma EnterSpelt(t: Tree)
    requires t.OneDir?
    ensures TokenBytes(EnterOf(t)) == Head(t.name, DIR_MODE, t.extra)
  {
  }

  lemma FirstEntry(hashOf: bytes -> nat, cached: map<bytes, FileRecord>, origin: map<bytes, bytes>, t: Tree)
    requires t != Nothing
    ensures Tokens(Written(hashOf, cached, t))
         == EntryTokens(hashOf, cached, t) + Tokens(Written(hashOf, cached, t.next))
    ensures Emitted(hashOf, cached, origin, t)
         == EntryBytes(hashOf, cached, origin, t) + Emitted(hashOf, cached, origin, t.next)
  {
    hide Head, GoodbyeBlock, FileBytes, TableWritten, EntryBlock;
    if t.OneDir? {
      var table := TableWritten(hashOf, cached, |EntryBlock(DIR_MODE, t.extra)|, t.kids);
      var e, k, l, n := [Enter(t.name, DIR_MODE, t.extra)], Tokens(Written(hashOf, cached, t.kids)), [Leave(table)],
                        Tokens(Written(hashOf, cached, t.next));
      assert e + (k + (l + n)) == e + (k + l) + n;
      var h, b, g, m := Head(t.name, DIR_MODE, t.extra), Emitted(hashOf, cached, origin, t.kids), GoodbyeBlock(table),
                        Emitted(hashOf, cached, origin, t.next);
      assert h + (b + (g + m)) == h + (b + g) + m;
    }
  }

  function EmittedArchive(hashOf: bytes -> nat, cached: map<bytes, FileRecord>, origin: map<bytes, bytes>, src: Source)
    : bytes
  {
    EntryBlock(DIR_MODE, src.extra)
    + ListBytes(hashOf, cached, origin, |EntryBlock(DIR_MODE, src.extra)|, src.top)
  }

  // What the cache remembers.

  predicate Speaks(content: Oracle, info: Info, data: bytes) {
    && info.stat.mtime != 0 && info.stat.size == |data|
    && data == content(info.key, info.stat.size, Seconds(info.stat.mtime))
  }

  /** Files are read as they were when their stat was taken. */
  predicate Truthful(content: Oracle, t: Tree) {
    match t
    case Nothing => true
    case OneFile(_, _, data, info, next) => Speaks(content, info, data) && Truthful(content, next)
    case OneDir(_, _, kids, next) => Truthful(content, kids) && Truthful(content, next)
  }

  predicate EndsWith(s: bytes, tail: bytes) {
    |s| >= |tail| && s[|s| - |tail|..] == tail
  }

  /** Every record whose spans cover it was made from bytes that end in the content its stat stands for. */
  ghost predicate Remembers(content: Oracle, files: map<bytes, FileRecord>, origin: map<bytes, bytes>) {
    forall k <- files :: CoversFile(files[k]) ==>
      var c := content(k, files[k].size, Seconds(files[k].mtime));
      files[k].mtime != 0 && files[k].size == |c| && k in origin && EndsWith(origin[k], c)
      && |origin[k]| == WantedLen(files[k])
  }

  /** A refreshed cache still says of each file what its content was. */
  lemma {:induction false} EnrichKeepsMemory(content: Oracle, files: map<bytes, FileRecord>,
                                             origin: map<bytes, bytes>, walk: seq<Walked>)
    requires Remembers(content, files, origin) && forall w <- walk :: w.mtime != 0
    ensures Remembers(content, EnrichAll(files, walk), origin)
    decreases |walk|
  {
    hide Seconds, TotalLen, EndsWith;
    if walk != [] {
      var w := walk[0];
      EnrichKeepsMemory(
        content, if w.key in files then files[w.key := Enriched(files[w.key], w.size, w.mtime)] else files,
        origin, walk[1..]);
    }
  }

  /** What is replayed ends in the file's data, and is the data exactly if it is as long. */
  lemma ReplayedEndsInData(content: Oracle, cached: map<bytes, FileRecord>, origin: map<bytes, bytes>,
                           info: Info, data: bytes)
    requires Remembers(content, cached, origin) && Speaks(content, info, data) && Replays(cached, info)
    ensures info.key in origin && EndsWith(origin[info.key], data)
    ensures |origin[info.key]| == WantedLen(cached[info.key]) >= |data|
    ensures origin[info.key] == data <==> WantedLen(cached[info.key]) == info.stat.size
  {
    hide TotalLen, Seconds;
  }

  /** By how much replaying makes the stream longer. */
  function Surplus(cached: map<bytes, FileRecord>, t: Tree): int {
    match t
    case Nothing => 0
    case OneFile(_, _, data, info, next) =>
      (if Replays(cached, info) then WantedLen(cached[info.key]) - |data| else 0) + Surplus(cached, next)
    case OneDir(_, _, kids, next) => Surplus(cached, kids) + Surplus(cached, next)
  }

  lemma {:induction false} SurplusIsExtra(content: Oracle, cached: map<bytes, FileRecord>, origin: map<bytes, bytes>,
                                          t: Tree)
    requires Remembers(content, cached, origin) && Truthful(content, t)
    ensures Surplus(cached, t) >= 0
    ensures Surplus(cached, t) == 0 <==> OnlyPayloads(cached, t)
  {
    hide Replays, Remembers, Speaks, WantedLen;
    match t
    case Nothing =>
    case OneFile(_, _, data, info, next) =>
      SurplusIsExtra(content, cached, origin, next);
      SizeSpoken(content, info, data);
      if Replays(cached, info) { ReplayedEndsInData(content, cached, origin, info, data); }
    case OneDir(_, _, kids, next) =>
      SurplusIsExtra(content, cached, origin, kids);
      SurplusIsExtra(content, cached, origin, next);
  }

  lemma SizeSpoken(content: Oracle, info: Info, data: bytes)
    requires Speaks(content, info, data)
    ensures info.stat.size == |data|
  {
  }

  /** Replayed records make the stream longer by what they are longer than their files. */
  lemma {:induction false} EmittedLength(hashOf: bytes -> nat, content: Oracle, cached: map<bytes, FileRecord>,
                                         origin: map<bytes, bytes>, t: Tree)
    requires Remembers(content, cached, origin) && Truthful(content, t)
    ensures |Emitted(hashOf, cached, origin, t)| == |Encode(Written(hashOf, cached, t))| + Surplus(cached, t)
    ensures OnlyPayloads(cached, t) ==> Emitted(hashOf, cached, origin, t) == Encode(Written(hashOf, cached, t))
  {
    hide Replays, Remembers, Speaks, WantedLen, Head, GoodbyeBlock, FileBytes, TokenBytes, Block, TableWritten;
    match t
    case Nothing =>
    case OneFile(name, extra, data, info, next) =>
      EmittedLength(hashOf, content, cached, origin, next);
      SizeSpoken(content, info, data);
      FileEmitted(content, cached, origin, t);
      var more := Encode(Written(hashOf, cached, next));
      assert (Head(name, FILE_MODE, extra) + Block(PAYLOAD, data)) + more
          == Head(name, FILE_MODE, extra) + (Block(PAYLOAD, data) + more);
    case OneDir(_, _, kids, next) =>
      EmittedLength(hashOf, content, cached, origin, kids);
      EmittedLength(hashOf, content, cached, origin, next);
  }

  lemma FileEmitted(content: Oracle, cached: map<bytes, FileRecord>, origin: map<bytes, bytes>, t: Tree)
    requires t.OneFile? && Remembers(content, cached, origin) && Speaks(content, t.info, t.data)
    ensures TokenBytes(LeafOf(t)) == Head(t.name, FILE_MODE, t.extra) + Block(PAYLOAD, t.data)
    ensures |TokenBytes(LeafOf(t))| == FileLength(t)
    ensures var b := FileBytes(cached, origin, t);
      if !Replays(cached, t.info) then b == TokenBytes(LeafOf(t)) else
        && |b| == FileLength(t) + WantedLen(cached[t.info.key]) - |t.data|
        && (WantedLen(cached[t.info.key]) == t.info.stat.size ==> b == TokenBytes(LeafOf(t)))
  {
    hide Head, Replays, Remembers, Speaks, WantedLen, TokenBytes, LeafStart;
    SizeSpoken(content, t.info, t.data);
    var leaf := LeafOf(t);
    LeafStartIsPrefix(leaf, 0);
    LeafStartIsPrefix(leaf, |t.data|);
    LeafSpelt(leaf);
    MoreOfLeaf(leaf, 0, |t.data|);
    assert t.data[0..|t.data|] == t.data;
    if Replays(cached, t.info) { ReplayedEndsInData(content, cached, origin, t.info, t.data); }
  }

  lemma LeafSpelt(t: Token)
    requires t.Leaf?
    ensures TokenBytes(t) == Head(t.name, t.mode, t.extra) + Block(PAYLOAD, t.data)
  {
  }

  /** What a list of entries says of its first, and of the rest. */
  lemma EntryFacts(content: Oracle, cached: map<bytes, FileRecord>, t: Tree)
    requires t != Nothing && NamesGiven(t) && Truthful(content, t)
    ensures NamesGiven(t.next) && Truthful(content, t.next)
    ensures t.OneFile? ==> Speaks(content, t.info, t.data) && FileLength(t) - |t.data| <= FLUSH_SCRATCH
    ensures t.OneFile? ==>
      Advance(cached, t) - Advance(cached, t.next) == if Replays(cached, t.info) then 0 else FileLength(t)
    ensures t.OneDir? ==> NamesGiven(t.kids) && Truthful(content, t.kids)
    ensures var own := Advance(cached, t) - Advance(cached, t.next);
      t.OneDir? ==>
        own == |Head(t.name, DIR_MODE, t.extra)| + Advance(cached, t.kids) + (16 + 24 * (Count(t.kids) + 1))
  {
    hide Head, Speaks, Replays;
  }

  // When the stream is the archive.

  /** With nothing replayed, the writer's position is that of the stream. */
  lemma {:induction false} AdvanceIsLength(hashOf: bytes -> nat, cached: map<bytes, FileRecord>, t: Tree)
    ensures |Encode(Written(hashOf, cached, t))| == Advance(map[], t)
    decreases t
  {
    hide Head, TableWritten;
    NothingCached(t);
    match t
    case Nothing =>
    case OneFile(_, _, _, _, next) => AdvanceIsLength(hashOf, cached, next);
    case OneDir(_, _, kids, next) =>
      AdvanceIsLength(hashOf, cached, kids);
      AdvanceIsLength(hashOf, cached, next);
  }

  lemma NothingCached(t: Tree)
    ensures t.OneFile? ==> !Replays(map[], t.info)
  {
  }

  /** The writer's position falls behind with the first file replayed. */
  lemma {:induction false} AdvanceLags(cached: map<bytes, FileRecord>, t: Tree)
    ensures Advance(cached, t) <= Advance(map[], t)
    ensures Advance(cached, t) == Advance(map[], t) <==> NothingReplayed(cached, t)
    decreases t
  {
    hide Head, Replays;
    NothingCached(t);
    match t
    case Nothing =>
    case OneFile(_, _, _, _, next) => AdvanceLags(cached, next);
    case OneDir(_, _, kids, next) =>
      AdvanceLags(cached, kids);
      AdvanceLags(cached, next);
  }

  lemma {:induction false} SameRows(hashOf: bytes -> nat, cached: map<bytes, FileRecord>, t: Tree)
    requires NothingReplayed(cached, t)
    ensures Rows(hashOf, cached, t) == Rows(hashOf, map[], t)
    decreases t
  {
    hide Advance, Replays;
    if t != Nothing {
      AdvanceLags(cached, t);
      AdvanceLags(cached, t.next);
      SameRows(hashOf, cached, t.next);
    }
  }

  lemma {:induction false} NothingReplayedSame(hashOf: bytes -> nat, cached: map<bytes, FileRecord>, t: Tree)
    requires NothingReplayed(cached, t)
    ensures Written(hashOf, cached, t) == Written(hashOf, map[], t) && OnlyPayloads(cached, t)
    ensures forall entry :: TableWritten(hashOf, cached, entry, t) == TableWritten(hashOf, map[], entry, t)
    decreases t
  {
    hide Advance, Replays, Rows, Table, EntryBlock;
    AdvanceLags(cached, t);
    SameRows(hashOf, cached, t);
    match t
    case Nothing =>
    case OneFile(_, _, _, _, next) => NothingReplayedSame(hashOf, cached, next);
    case OneDir(_, _, kids, next) =>
      NothingReplayedSame(hashOf, cached, kids);
      NothingReplayedSame(hashOf, cached, next);
  }

  lemma ArchiveLength(hashOf: bytes -> nat, cached: map<bytes, FileRecord>, src: Source)
    ensures |EncodeArchive(WrittenArchive(hashOf, cached, src))|
         == |EntryBlock(DIR_MODE, src.extra)| + Advance(map[], src.top) + 16 + 24 * (Count(src.top) + 1)
  {
    hide EntryBlock, Encode, Written, TableWritten, Advance;
    AdvanceIsLength(hashOf, cached, src.top);
  }

  /**
   The stream of a run is the archive with the tables the writer gives it exactly if all that is replayed is as long
   as the file; otherwise it is longer, by what the replayed records are longer.
   */
  lemma StreamIsWritten(hashOf: bytes -> nat, content: Oracle, cached: map<bytes, FileRecord>,
                        origin: map<bytes, bytes>, src: Source)
    requires Remembers(content, cached, origin) && Truthful(content, src.top)
    ensures EmittedArchive(hashOf, cached, origin, src) == EncodeArchive(WrittenArchive(hashOf, cached, src))
       <==> OnlyPayloads(cached, src.top)
    ensures |EmittedArchive(hashOf, cached, origin, src)|
         == |EncodeArchive(ArchiveOf(hashOf, src))| + Surplus(cached, src.top)
    ensures Surplus(cached, src.top) >= 0 && (Surplus(cached, src.top) == 0 <==> OnlyPayloads(cached, src.top))
  {
    hide EntryBlock, GoodbyeBlock, Encode, Emitted, Written, TableWritten, Remembers, Truthful, Surplus, OnlyPayloads;
    EmittedLength(hashOf, content, cached, origin, src.top);
    SurplusIsExtra(content, cached, origin, src.top);
    ArchiveLength(hashOf, cached, src);
    ArchiveLength(hashOf, map[], src);
    StreamLength(hashOf, cached, origin, src);
  }

  lemma StreamLength(hashOf: bytes -> nat, cached: map<bytes, FileRecord>, origin: map<bytes, bytes>, src: Source)
    ensures |EmittedArchive(hashOf, cached, origin, src)| - |Emitted(hashOf, cached, origin, src.top)|
         == |EncodeArchive(WrittenArchive(hashOf, cached, src))| - |Encode(Written(hashOf, cached, src.top))|
  {
    hide EntryBlock, GoodbyeBlock, Encode, Emitted, Written, TableWritten;
  }

  /** The stream of a run is the archive of the source exactly if no file was replayed. */
  lemma StreamIsArchive(hashOf: bytes -> nat, content: Oracle, cached: map<bytes, FileRecord>,
                        origin: map<bytes, bytes>, src: Source)
    requires Remembers(content, cached, origin) && Truthful(content, src.top)
    requires |EncodeArchive(ArchiveOf(hashOf, src))| <= MAX_INT
    ensures EmittedArchive(hashOf, cached, origin, src) == EncodeArchive(ArchiveOf(hashOf, src))
       <==> NothingReplayed(cached, src.top)
  {
    hide EntryBlock, GoodbyeBlock, Encode, EncodeArchive, EmittedArchive, WrittenArchive, Remembers, Truthful, Surplus,
         OnlyPayloads, NothingReplayed;
    StreamIsWritten(hashOf, content, cached, origin, src);
    if NothingReplayed(cached, src.top) {
      NothingReplayedSame(hashOf, cached, src.top);
      assert WrittenArchive(hashOf, cached, src) == ArchiveOf(hashOf, src) by { SameArchive(hashOf, cached, src); }
    } else if OnlyPayloads(cached, src.top) {
      AdvanceLags(cached, src.top);
      WrittenDiffers(hashOf, cached, src);
    }
  }

  lemma SameArchive(hashOf: bytes -> nat, cached: map<bytes, FileRecord>, src: Source)
    requires NothingReplayed(cached, src.top)
    ensures WrittenArchive(hashOf, cached, src) == ArchiveOf(hashOf, src)
  {
    hide Written, TableWritten, EntryBlock;
    NothingReplayedSame(hashOf, cached, src.top);
  }

  /** The closing row of the root's table tells the two apart. */
  lemma WrittenDiffers(hashOf: bytes -> nat, cached: map<bytes, FileRecord>, src: Source)
    requires Advance(cached, src.top) < Advance(map[], src.top)
    requires |EncodeArchive(ArchiveOf(hashOf, src))| <= MAX_INT
    ensures EncodeArchive(WrittenArchive(hashOf, cached, src)) != EncodeArchive(ArchiveOf(hashOf, src))
  {
    hide EntryBlock, Encode, Written, TableWritten, Advance, GoodbyeBlock;
    var a, b := EncodeArchive(WrittenArchive(hashOf, cached, src)), EncodeArchive(ArchiveOf(hashOf, src));
    var entry := |EntryBlock(DIR_MODE, src.extra)|;
    ArchiveLength(hashOf, map[], src);
    ClosingRow(hashOf, cached, src, a);
    ClosingRow(hashOf, map[], src, b);
  }

  lemma {:induction false} RowsBytes(a: seq<GoodbyeItem>, x: GoodbyeItem)
    ensures TableBytes(a + [x]) == TableBytes(a) + (LE64(x.hash) + (LE64(x.offset) + LE64(x.length)))
    decreases |a|
  {
    hide LE64;
    if a == [] {
      assert a + [x] == [x] && [x][1..] == [] && LE64(x.length) + [] == LE64(x.length);
    } else {
      assert (a + [x])[1..] == a[1..] + [x] && (a + [x])[0] == a[0];
      RowsBytes(a[1..], x);
      var h, o, l, r := LE64(a[0].hash), LE64(a[0].offset), LE64(a[0].length), TableBytes(a[1..]);
      var y := LE64(x.hash) + (LE64(x.offset) + LE64(x.length));
      assert h + (o + (l + (r + y))) == h + (o + (l + r)) + y;
    }
  }

  /** The second word of the last row stands 16 bytes before the end. */
  lemma LastRow(before: bytes, rows: seq<GoodbyeItem>, x: GoodbyeItem)
    ensures var s := before + GoodbyeBlock(rows + [x]);
      |s| >= 16 && At(s, |s| - 16, LE64(x.offset))
  {
    hide LE64, TableBytes, BlockHeader;
    RowsBytes(rows, x);
    var o, l := LE64(x.offset), LE64(x.length);
    var s, tail := before + GoodbyeBlock(rows + [x]), o + l;
    assert s[|s| - 16..] == tail;
    assert s[|s| - 16..|s| - 8] == tail[..8];
  }

  lemma ClosingRow(hashOf: bytes -> nat, cached: map<bytes, FileRecord>, src: Source, stream: bytes)
    requires stream == EncodeArchive(WrittenArchive(hashOf, cached, src))
    requires |EntryBlock(DIR_MODE, src.extra)| + Advance(cached, src.top) < TWO_64
    ensures |stream| >= 16
      && U64(stream, |stream| - 16) == |EntryBlock(DIR_MODE, src.extra)| + Advance(cached, src.top)
  {
    hide EntryBlock, Encode, Written, Advance, LE64, GoodbyeBlock, GoodbyeTables.Laid;
    var entry := EntryBlock(DIR_MODE, src.extra);
    var rows := GoodbyeTables.Laid(Sorted(Rows(hashOf, cached, src.top)));
    var x := TailItem(|entry| + Advance(cached, src.top), |Sorted(Rows(hashOf, cached, src.top))|);
    var before := entry + Encode(Written(hashOf, cached, src.top));
    assert stream == before + GoodbyeBlock(rows + [x]);
    LastRow(before, rows, x);
    AtU64(stream, |stream| - 16, x.offset);
  }

  // The tables, and what random access makes of them.

  /** The tree itself, with no tables. */
  function Plain(t: Tree): Siblings {
    match t
    case Nothing => End
    case OneFile(name, extra, data, _, next) => File(name, FILE_MODE, extra, data, Plain(next))
    case OneDir(name, extra, kids, next) => Dir(name, DIR_MODE, extra, Plain(kids), [], Plain(next))
  }

  lemma {:induction false} RowsAreItems(hashOf: bytes -> nat, t: Tree)
    requires Written(hashOf, map[], t) == Tabled(hashOf, Plain(t))
    ensures Sorted(Rows(hashOf, map[], t)) == Items(hashOf, Written(hashOf, map[], t))
    decreases t
  {
    hide Advance, Encode, FirstSize, TableFor, TableWritten, EntryBlock;
    if t != Nothing {
      TabledTail(hashOf, t);
      RowsAreItems(hashOf, t.next);
      AdvanceIsLength(hashOf, map[], t);
      AdvanceIsLength(hashOf, map[], t.next);
      FirstOfChain(Written(hashOf, map[], t));
    }
  }

  lemma TabledTail(hashOf: bytes -> nat, t: Tree)
    requires t != Nothing && Written(hashOf, map[], t) == Tabled(hashOf, Plain(t))
    ensures Written(hashOf, map[], t) != End && Written(hashOf, map[], t).name == t.name
    ensures Written(hashOf, map[], t).next == Written(hashOf, map[], t.next) == Tabled(hashOf, Plain(t.next))
  {
    hide TableFor, TableWritten;
  }

  lemma FirstOfChain(s: Siblings)
    requires s != End
    ensures FirstSize(s) == |Encode(s)| - |Encode(s.next)|
  {
    hide Head, GoodbyeBlock;
  }

  /** With nothing replayed the writer's tables are the right ones. */
  lemma {:induction false} WrittenIsTabled(hashOf: bytes -> nat, t: Tree)
    ensures Written(hashOf, map[], t) == Tabled(hashOf, Plain(t))
    ensures forall entry :: TableWritten(hashOf, map[], entry, t) == TableFor(hashOf, entry, Tabled(hashOf, Plain(t)))
    decreases t
  {
    hide Advance, Encode, Items, Rows, EntryBlock, Table;
    match t {
      case Nothing =>
      case OneFile(_, _, _, _, next) => WrittenIsTabled(hashOf, next);
      case OneDir(_, _, kids, next) =>
        WrittenIsTabled(hashOf, kids);
        WrittenIsTabled(hashOf, next);
    }
    RowsAreItems(hashOf, t);
    AdvanceIsLength(hashOf, map[], t);
  }

  /** Names have hashes that fit their field, and different ones in one directory. */
  predicate HashesWell(hashOf: bytes -> nat, t: Tree) {
    var s := Plain(t);
    SmallHashes(hashOf, s) && DistinctHashes(hashOf, s) && Hashable(hashOf, s)
  }

  lemma {:induction false} PlainIsWellFormed(t: Tree)
    requires NamesGiven(t)
    ensures WellFormed(Plain(t))
  {
    hide Head;
    match t
    case Nothing =>
    case OneFile(_, _, _, _, next) => PlainIsWellFormed(next);
    case OneDir(_, _, kids, next) =>
      PlainIsWellFormed(kids);
      PlainIsWellFormed(next);
  }

  lemma ModesAreRight()
    ensures FILE_MODE < TWO_64 && !IsDirMode(FILE_MODE) && DIR_MODE < TWO_64 && IsDirMode(DIR_MODE)
  {
  }

  lemma {:induction false} WrittenIsWellFormed(hashOf: bytes -> nat, cached: map<bytes, FileRecord>, t: Tree)
    requires NamesGiven(t)
    ensures WellFormed(Written(hashOf, cached, t))
  {
    hide TableWritten, EntryBlock, Head, IsDirMode;
    ModesAreRight();
    match t
    case Nothing =>
    case OneFile(_, _, _, _, next) => WrittenIsWellFormed(hashOf, cached, next);
    case OneDir(_, _, kids, next) =>
      WrittenIsWellFormed(hashOf, cached, kids);
      WrittenIsWellFormed(hashOf, cached, next);
  }

  lemma ArchiveIsTabled(hashOf: bytes -> nat, src: Source)
    ensures ArchiveOf(hashOf, src) == TabledArchive(hashOf, Archive(DIR_MODE, src.extra, Plain(src.top), []))
  {
    hide EntryBlock, Written, Tabled, TableWritten, TableFor;
    WrittenIsTabled(hashOf, src.top);
  }

  /** Random access to an archive the writer made finds for each path what the tree has. */
  lemma ArchiveCanBeRead(hashOf: bytes -> nat, src: Source, path: seq<bytes>)
    requires NamesGiven(src.top) && HashesWell(hashOf, src.top) && path != []
    requires |EncodeArchive(ArchiveOf(hashOf, src))| <= MAX_INT
    ensures GoodArchiveTables(hashOf, ArchiveOf(hashOf, src))
    ensures FindInPxar(hashOf, EncodeArchive(ArchiveOf(hashOf, src)), 0, path)
         == Resolve(hashOf, Plain(src.top), path)
  {
    hide EncodeArchive, ArchiveOf, TabledArchive, FindInPxar, Resolve, WellFormed, NamesGiven, Hashable, SmallHashes,
         DistinctHashes, GoodArchiveTables;
    ArchiveIsTabled(hashOf, src);
    PlainIsWellFormed(src.top);
    EveryTreeCanBeRead(hashOf, Archive(DIR_MODE, src.extra, Plain(src.top), []), path);
  }

  /** Once a file has been replayed, the row of the root's first entry leads to the wrong place. */
  lemma ReplayedTablesAreWrong(hashOf: bytes -> nat, cached: map<bytes, FileRecord>, src: Source)
    requires !NothingReplayed(cached, src.top)
    ensures !GoodArchiveTables(hashOf, WrittenArchive(hashOf, cached, src))
  {
    hide Encode, EntryBlock, Advance, NothingReplayed, GoodTables, Words, GoodbyeTables.Laid, DistinctHashes;
    var t, s := src.top, Written(hashOf, cached, src.top);
    var table := WrittenArchive(hashOf, cached, src).table;
    NothingToReplay(cached, t);
    AdvanceLags(cached, t);
    AdvanceIsLength(hashOf, cached, t);
    var row := GoodbyeItem(hashOf(t.name), Advance(cached, t), Advance(cached, t) - Advance(cached, t.next));
    RowIsInTable(hashOf, cached, |EntryBlock(DIR_MODE, src.extra)|, t);
    var i :| 0 <= i < |table| - 1 && table[i] == row;
    assert ChildWith(hashOf, s, row.hash) == s;
  }

  lemma NothingToReplay(cached: map<bytes, FileRecord>, t: Tree)
    requires !NothingReplayed(cached, t)
    ensures t != Nothing
  {
  }

  lemma RowIsInTable(hashOf: bytes -> nat, cached: map<bytes, FileRecord>, entry: nat, t: Tree)
    requires t != Nothing
    ensures var table := TableWritten(hashOf, cached, entry, t);
      exists i :: 0 <= i < |table| - 1 && table[i]
        == GoodbyeItem(hashOf(t.name), Advance(cached, t), Advance(cached, t) - Advance(cached, t.next))
  {
    hide Advance, GoodbyeTables.Laid;
    var rows := Rows(hashOf, cached, t);
    var items := Sorted(rows);
    assert rows[0] in items;
    EveryRowIsLaid(items, rows[0]);
    var i :| 0 <= i < |items| && GoodbyeTables.Laid(items)[i] == rows[0];
    assert TableWritten(hashOf, cached, entry, t)[i] == rows[0];
  }

  lemma EveryRowIsLaid(items: seq<GoodbyeItem>, x: GoodbyeItem)
    requires x in items
    ensures exists i :: 0 <= i < |items| && GoodbyeTables.Laid(items)[i] == x
  {
    var n := |items|;
    WholeSize(n);
    var k :| 0 <= k < n && items[k] == x;
    PickReaches(0, n, items, k);
    var p: nat :| p < n && GoodbyeSearch.Below(0, p) && Pick(0, n, items, p) == items[k];
    assert GoodbyeTables.Laid(items)[p] == x;
  }

  /** The tables of a run serve random access exactly if nothing was replayed. */
  lemma TablesServe(hashOf: bytes -> nat, cached: map<bytes, FileRecord>, src: Source)
    requires NamesGiven(src.top) && HashesWell(hashOf, src.top)
    requires |EncodeArchive(ArchiveOf(hashOf, src))| <= MAX_INT
    ensures GoodArchiveTables(hashOf, WrittenArchive(hashOf, cached, src)) <==> NothingReplayed(cached, src.top)
  {
    hide EncodeArchive, ArchiveOf, WrittenArchive, NamesGiven, HashesWell, GoodArchiveTables, NothingReplayed;
    if NothingReplayed(cached, src.top) {
      SameArchive(hashOf, cached, src);
      ArchiveCanBeRead(hashOf, src, [[]]);
    } else {
      ReplayedTablesAreWrong(hashOf, cached, src);
    }
  }
}
