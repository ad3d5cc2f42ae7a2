/** What replaying the records of earlier runs puts into the next stream. */
module ReplayedRecords {
  import opened Bytes
  import opened PxarFormat
  import opened PxarTokens
  import opened ChunkLayout
  import opened ChunkStream
  import opened ChunkSpans
  import opened FI = FastIncremental
  import opened RecordCuts
  import opened WriterCuts
  import opened PxarWriter

  function HeadersLength(t: Tree): nat
    requires t.OneFile?
  {
    |Head(t.name, FILE_MODE, t.extra)| + 16
  }

  /** What is replayed was recorded of the same file, from its first mark to its last. */
  predicate FullyRecorded(cached: map<bytes, FileRecord>, t: Tree) {
    match t
    case Nothing => true
    case OneFile(_, _, _, info, next) =>
      (Replays(cached, info) ==> WantedLen(cached[info.key]) == FileLength(t)) && FullyRecorded(cached, next)
    case OneDir(_, _, kids, next) => FullyRecorded(cached, kids) && FullyRecorded(cached, next)
  }

  /** The headers of all files that are replayed. */
  function HeadersRepeated(cached: map<bytes, FileRecord>, t: Tree): nat {
    match t
    case Nothing => 0
    case OneFile(_, _, _, info, next) =>
      (if Replays(cached, info) then HeadersLength(t) else 0) + HeadersRepeated(cached, next)
    case OneDir(_, _, kids, next) => HeadersRepeated(cached, kids) + HeadersRepeated(cached, next)
  }

  lemma {:induction false} SurplusIsHeaders(cached: map<bytes, FileRecord>, t: Tree)
    requires FullyRecorded(cached, t)
    ensures Surplus(cached, t) == HeadersRepeated(cached, t)
    ensures HeadersRepeated(cached, t) == 0 <==> NothingReplayed(cached, t)
  {
    hide Replays, Head, WantedLen;
    match t
    case Nothing =>
    case OneFile(_, _, _, _, next) => SurplusIsHeaders(cached, next);
    case OneDir(_, _, kids, next) =>
      SurplusIsHeaders(cached, kids);
      SurplusIsHeaders(cached, next);
  }

  /**
   With records as the writer's marks make them, the stream has the headers of every replayed file once more than the
   archive, and so is the archive exactly if no file is replayed.
   */
  lemma HeadersComeTwice(hashOf: bytes -> nat, content: Oracle, cached: map<bytes, FileRecord>,
                         origin: map<bytes, bytes>, src: Source)
    requires Remembers(content, cached, origin) && Truthful(content, src.top) && FullyRecorded(cached, src.top)
    ensures |EmittedArchive(hashOf, cached, origin, src)|
         == |EncodeArchive(WrittenArchive(hashOf, cached, src))| + HeadersRepeated(cached, src.top)
    ensures EmittedArchive(hashOf, cached, origin, src) == EncodeArchive(WrittenArchive(hashOf, cached, src))
       <==> NothingReplayed(cached, src.top)
  {
    hide EncodeArchive, EmittedArchive, WrittenArchive, Remembers, Truthful, Surplus, OnlyPayloads, NothingReplayed,
         HeadersRepeated, FullyRecorded, Advance;
    StreamIsWritten(hashOf, content, cached, origin, src);
    SurplusIsHeaders(cached, src.top);
    ArchiveLength(hashOf, cached, src);
    ArchiveLength(hashOf, map[], src);
  }

  // Two runs over a directory with one file, cut where the file starts and where it ends.

  /** The record the first run makes of the file. */
  function RecordOf(records: seq<Record>, start: nat, t: Tree): FileRecord
    requires t.OneFile?
  {
    var st := t.info.stat;
    FileRecord(st.size, FileLength(t), st.mtime, st.aclHash,
               Cut(RecordStretches(records), start, start + FileLength(t)))
  }

  lemma SameStatIsAccepted(records: seq<Record>, start: nat, t: Tree)
    requires t.OneFile? && Replayable(RecordOf(records, start, t))
    ensures Replays(map[t.info.key := RecordOf(records, start, t)], t.info)
  {
    hide Cut, TotalLen, Head;
  }

  /**
   The second run over the unchanged directory: it replays the file, and the stream is longer than what the recorder
   sees by the file's headers. Where the new file index says the file lies, the stream has a block of the right length
   with the start of the file's own block in it.
   */
  lemma SecondRunRepeats(hashOf: bytes -> nat, records: seq<Record>, chunks: seq<bytes>, src: Source)
    requires src.top.OneFile? && src.top.next == Nothing && src.top.info.stat.size == |src.top.data|
    requires Describes(records, chunks) && (forall r <- records :: r.digest != [])
    requires var start := |EntryBlock(DIR_MODE, src.extra)|;
      AtChunkEnd(records, start) && AtChunkEnd(records, start + FileLength(src.top))
    ensures var t := src.top;
      var block, root := TokenBytes(LeafOf(t)), EntryBlock(DIR_MODE, src.extra);
      var cached, origin := map[t.info.key := RecordOf(records, |root|, t)], map[t.info.key := block];
      var written, stream := WrittenArchive(hashOf, cached, src), EmittedArchive(hashOf, cached, origin, src);
      && Replays(cached, t.info)
      && |stream| == |EncodeArchive(written)| + HeadersLength(t) > |EncodeArchive(ArchiveOf(hashOf, src))|
      && |ArchiveFiles(written)| == 1 && ArchiveFiles(written)[0].pos.size == |t.data| <= |block|
      && At(stream, ArchiveFiles(written)[0].pos.offset, Block(PAYLOAD, block[..|t.data|]))
  {
    hide Cut, Describes, Flatten, AtChunkEnd, EncodeArchive, WrittenArchive, EmittedArchive, ArchiveFiles, Replays,
         TokenBytes, LeafStart, Head, TableWritten, EntryBlock, Block, GoodbyeBlock, RecordOf;
    var t, root := src.top, EntryBlock(DIR_MODE, src.extra);
    var rec, block := RecordOf(records, |root|, t), TokenBytes(LeafOf(t));
    assert rec.spans == Cut(RecordStretches(records), |root|, |root| + FileLength(t)) && rec.pxarLen == FileLength(t)
      by { RecordIs(records, |root|, t); }
    ReplayableAtChunkEnds(records, chunks, |root|, |root| + FileLength(t), rec);
    SameStatIsAccepted(records, |root|, t);
    var cached, origin := map[t.info.key := rec], map[t.info.key := block];
    var table := TableWritten(hashOf, cached, |root|, t);
    OneFileArchive(hashOf, cached, src, table);
    OneFileArchive(hashOf, map[], src, TableWritten(hashOf, map[], |root|, t));
    OneFileEmitted(hashOf, cached, origin, src, table);
    RepeatedBlock(root, t, GoodbyeBlock(table));
  }

  lemma RecordIs(records: seq<Record>, start: nat, t: Tree)
    requires t.OneFile?
    ensures var rec := RecordOf(records, start, t);
      rec.spans == Cut(RecordStretches(records), start, start + FileLength(t)) && rec.pxarLen == FileLength(t)
  {
    hide Cut;
  }

  lemma OneFileEmitted(hashOf: bytes -> nat, cached: map<bytes, FileRecord>, origin: map<bytes, bytes>, src: Source,
                       table: seq<GoodbyeItem>)
    requires src.top.OneFile? && src.top.next == Nothing && Replays(cached, src.top.info)
    requires table == TableWritten(hashOf, cached, |EntryBlock(DIR_MODE, src.extra)|, src.top)
    requires src.top.info.key in origin && origin[src.top.info.key] == TokenBytes(LeafOf(src.top))
    ensures EmittedArchive(hashOf, cached, origin, src)
         == EntryBlock(DIR_MODE, src.extra)
            + (LeafStart(LeafOf(src.top), 0) + TokenBytes(LeafOf(src.top)) + [] + GoodbyeBlock(table))
  {
    hide TableWritten, TokenBytes, LeafStart, EntryBlock, GoodbyeBlock, Replays;
    var t, block := src.top, TokenBytes(LeafOf(src.top));
    assert Emitted(hashOf, cached, origin, t.next) == [];
    assert Emitted(hashOf, cached, origin, t) == LeafStart(LeafOf(t), 0) + block + [];
  }

  lemma OneFileArchive(hashOf: bytes -> nat, cached: map<bytes, FileRecord>, src: Source, table: seq<GoodbyeItem>)
    requires src.top.OneFile? && src.top.next == Nothing
    requires table == TableWritten(hashOf, cached, |EntryBlock(DIR_MODE, src.extra)|, src.top)
    ensures var written, at := WrittenArchive(hashOf, cached, src), |EntryBlock(DIR_MODE, src.extra)|;
      && |EncodeArchive(written)| == at + FileLength(src.top) + |GoodbyeBlock(table)|
      && |GoodbyeBlock(table)| == 64
      && |ArchiveFiles(written)| == 1
      && ArchiveFiles(written)[0].pos.offset == at + |Head(src.top.name, FILE_MODE, src.top.extra)|
      && ArchiveFiles(written)[0].pos.size == |src.top.data|
  {
    hide TableWritten, Head, EntryBlock, Block;
    var t, at := src.top, |EntryBlock(DIR_MODE, src.extra)|;
    var w := Written(hashOf, cached, t);
    assert Count(t) == 1 && w.next == Written(hashOf, cached, t.next) == End && Encode(w.next) == [];
    assert w == File(t.name, FILE_MODE, t.extra, t.data, End);
    assert Files(End, [], at + FileLength(t)) == [];
  }

  lemma RepeatedBlock(root: bytes, t: Tree, rest: bytes)
    requires t.OneFile?
    ensures var block := TokenBytes(LeafOf(t));
      && |block| == FileLength(t) && |LeafStart(LeafOf(t), 0)| == HeadersLength(t)
      && At(root + (LeafStart(LeafOf(t), 0) + block + [] + rest), |root| + |Head(t.name, FILE_MODE, t.extra)|,
            Block(PAYLOAD, block[..|t.data|]))
  {
    hide Head, TokenBytes, BlockHeader;
    var leaf := LeafOf(t);
    LeafStartIsPrefix(leaf, 0);
    LeafStartIsPrefix(leaf, |t.data|);
    var h, b, block := Head(t.name, FILE_MODE, t.extra), BlockHeader(PAYLOAD, |t.data|), TokenBytes(leaf);
    var stream := root + (LeafStart(leaf, 0) + block + [] + rest);
    assert t.data[..0] == [] && b + [] == b && LeafStart(leaf, 0) == h + b;
    assert stream == (root + h) + (b + block[..|t.data|]) + (block[|t.data|..] + rest);
    assert Block(PAYLOAD, block[..|t.data|]) == b + block[..|t.data|];
  }

  /** The file's own block starts with a tag, so it is not the data unless that starts with the same byte. */
  lemma RestoredIsNotData(t: Tree)
    requires t.OneFile? && t.data != [] && t.data[0] != LE64(FILENAME)[0]
    ensures |t.data| <= |TokenBytes(LeafOf(t))| && TokenBytes(LeafOf(t))[..|t.data|] != t.data
  {
    hide ToLE, EntryBlock;
    var leaf, h := LeafOf(t), Head(t.name, FILE_MODE, t.extra);
    LeafStartIsPrefix(leaf, |t.data|);
    assert LeafStart(leaf, |t.data|)[0] == h[0];
    assert h[0] == FilenameBlock(t.name)[0] == BlockHeader(FILENAME, |t.name| + 1)[0] == LE64(FILENAME)[0];
    assert |LeafStart(leaf, |t.data|)| > |t.data|;
    assert TokenBytes(leaf)[..|t.data|][0] == h[0];
  }

  /** A directory with a file of one byte. */
  function Small(): Source {
    Source([], OneFile([97], [], [0], Info([97], Stat(1, NS, [])), Nothing))
  }

  /** The first run's chunks up to the end of the file. */
  function FirstChunks(src: Source): seq<bytes>
    requires src.top.OneFile?
  {
    [EntryBlock(DIR_MODE, src.extra), TokenBytes(LeafOf(src.top))]
  }

  function FirstRecords(h: Hash, src: Source): seq<Record>
    requires src.top.OneFile?
  {
    var c := FirstChunks(src);
    [Record(|c[0]|, h.sha(c[0])), Record(|c[0]| + |c[1]|, h.sha(c[1]))]
  }

  /**
   An input on which two runs differ: cut before the file's name and behind its payload, the unchanged file is
   replayed, the stream grows past the archive, and the block at the file's listed position is not the file's.
   */
  lemma TwoRunsDiffer(h: Hash, hashOf: bytes -> nat)
    requires Collisionless(h)
    ensures var src, records := Small(), FirstRecords(h, Small());
      var root, block := FirstChunks(src)[0], FirstChunks(src)[1];
      var cached, origin := map[[97] := RecordOf(records, |root|, src.top)], map[[97] := block];
      var written, stream := WrittenArchive(hashOf, cached, src), EmittedArchive(hashOf, cached, origin, src);
      && NamesGiven(src.top) && Describes(records, FirstChunks(src))
      && Replays(cached, src.top.info)
      && |stream| == |EncodeArchive(written)| + 58 > |EncodeArchive(ArchiveOf(hashOf, src))|
      && |ArchiveFiles(written)| == 1 && block[..1] != [0]
      && At(stream, ArchiveFiles(written)[0].pos.offset, Block(PAYLOAD, block[..1]))
  {
    hide EntryBlock, TokenBytes, WrittenArchive, EmittedArchive, EncodeArchive, ArchiveFiles, RecordOf, Replays,
         Block, Collisionless;
    var src := Small();
    FirstDescribed(h, src);
    SecondRunRepeats(hashOf, FirstRecords(h, src), FirstChunks(src), src);
    RestoredIsNotData(src.top);
  }

  lemma FirstDescribed(h: Hash, src: Source)
    requires src.top.OneFile? && Collisionless(h)
    ensures var records, start := FirstRecords(h, src), |EntryBlock(DIR_MODE, src.extra)|;
      && Describes(records, FirstChunks(src)) && (forall r <- records :: r.digest != [])
      && AtChunkEnd(records, start) && AtChunkEnd(records, start + FileLength(src.top))
  {
    hide TokenBytes, Head;
    var c, records := FirstChunks(src), FirstRecords(h, src);
    LeafStartIsPrefix(LeafOf(src.top), |src.top.data|);
    assert |EntryBlock(DIR_MODE, src.extra)| > 0;
    assert c[..1] == [c[0]] && c[..2] == [c[0], c[1]] && c[1..] == [c[1]];
    FlattenOne([], c[0]);
    FlattenOne([c[0]], c[1]);
    assert [] + [c[0]] == [c[0]] && [c[0]] + [c[1]] == c[..2] && [] + c[0] == c[0];
    assert records[0] in records && records[1] in records;
  }
}
