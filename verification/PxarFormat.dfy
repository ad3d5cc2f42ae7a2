/**
 The archive format the readers accept, written as an encoder from trees to bytes.
 A directory is a chain of siblings closed by a GOODBYE block, so one recursive
 datatype describes the whole nesting.
 */
module PxarFormat {
  import opened Bytes

  const FILENAME: nat := 0x16701121063917b3
  const ENTRY: nat := 0xd5956474e588acef
  const PAYLOAD: nat := 0x28147a1b0b7c1a25
  const GOODBYE: nat := 0x2fec4fa642d5731d
  const GOODBYE_TAIL: nat := 0xef5eed5b753e1555

  /** `mode & 0o170000 == 0o040000`. */
  predicate IsDirMode(mode: nat) {
    mode / 0x1000 % 16 == 4
  }

  /** One row of a goodbye table; `offset` counts back from the GOODBYE block. */
  datatype GoodbyeItem = GoodbyeItem(hash: nat, offset: nat, length: nat)

  datatype Siblings =
    | End
    | File(name: bytes, mode: nat, extra: bytes, data: bytes, next: Siblings)
    | Dir(name: bytes, mode: nat, extra: bytes, kids: Siblings, table: seq<GoodbyeItem>, next: Siblings)

  datatype Archive = Archive(mode: nat, extra: bytes, kids: Siblings, table: seq<GoodbyeItem>)

  predicate WellFormed(s: Siblings) {
    match s
    case End => true
    case File(name, mode, _, _, next) => name != [] && mode < TWO_64 && !IsDirMode(mode) && WellFormed(next)
    case Dir(name, mode, _, kids, _, next) =>
      name != [] && mode < TWO_64 && IsDirMode(mode) && WellFormed(kids) && WellFormed(next)
  }

  predicate WellFormedArchive(a: Archive) {
    a.mode < TWO_64 && IsDirMode(a.mode) && WellFormed(a.kids)
  }

  /** Every block opens with its tag and its total length, this header included. */
  function BlockHeader(tag: nat, size: nat): (h: bytes)
    ensures |h| == 16
  {
    LE64(tag) + LE64(16 + size)
  }

  function Block(tag: nat, body: bytes): (b: bytes)
    ensures |b| == 16 + |body|
  {
    BlockHeader(tag, |body|) + body
  }

  function EntryBlock(mode: nat, extra: bytes): bytes {
    Block(ENTRY, LE64(mode) + extra)
  }

  function FilenameBlock(name: bytes): bytes {
    Block(FILENAME, name + [0])
  }

  /** What precedes a payload or a directory's content: the name and the entry. */
  function Head(name: bytes, mode: nat, extra: bytes): (h: bytes)
    ensures |h| == 41 + |name| + |extra|
  {
    FilenameBlock(name) + EntryBlock(mode, extra)
  }

  function TableBytes(table: seq<GoodbyeItem>): (b: bytes)
    ensures |b| == 24 * |table|
  {
    if table == [] then [] else
      LE64(table[0].hash) + (LE64(table[0].offset) + (LE64(table[0].length) + TableBytes(table[1..])))
  }

  function GoodbyeBlock(table: seq<GoodbyeItem>): bytes {
    Block(GOODBYE, TableBytes(table))
  }

  function Encode(s: Siblings): bytes {
    match s
    case End => []
    case File(name, mode, extra, data, next) =>
      Head(name, mode, extra) + (Block(PAYLOAD, data) + Encode(next))
    case Dir(name, mode, extra, kids, table, next) =>
      Head(name, mode, extra) + (Encode(kids) + (GoodbyeBlock(table) + Encode(next)))
  }

  function EncodeArchive(a: Archive): bytes {
    EntryBlock(a.mode, a.extra) + (Encode(a.kids) + GoodbyeBlock(a.table))
  }

  /** Where the stream index says a file lies. */
  datatype FilePos = FilePos(offset: nat, size: nat, entryStart: nat, entryEnd: nat)

  const BACKSLASH: byte := 92
  const SLASH: byte := 47

  function Join(dir: bytes, name: bytes): bytes {
    if dir == [] then name else dir + [BACKSLASH] + name
  }

  /** A file of the tree, with its full path and its place in the stream. */
  datatype Located = Located(path: bytes, pos: FilePos, data: bytes)

  /** Every file under `dir`, in stream order, when the chain is encoded at offset `off`. */
  function Files(s: Siblings, dir: bytes, off: nat): seq<Located> {
    match s
    case End => []
    case File(name, mode, extra, data, next) =>
      var at := off + |Head(name, mode, extra)|;
      var end := at + 16 + |data|;
      [Located(Join(dir, name), FilePos(at, |data|, at, end), data)] + Files(next, dir, end)
    case Dir(name, mode, extra, kids, table, next) =>
      var at := off + |Head(name, mode, extra)|;
      Files(kids, Join(dir, name), at) + Files(next, dir, at + |Encode(kids)| + |GoodbyeBlock(table)|)
  }

  function ArchiveFiles(a: Archive): seq<Located> {
    Files(a.kids, [], |EntryBlock(a.mode, a.extra)|)
  }

  /** The parts of an encoded chain stand one after another. */
  lemma FileParts(data: bytes, pos: nat, s: Siblings)
    requires s.File? && At(data, pos, Encode(s))
    ensures var body := pos + |Head(s.name, s.mode, s.extra)|;
      && At(data, pos, Head(s.name, s.mode, s.extra))
      && At(data, body, Block(PAYLOAD, s.data))
      && At(data, body + 16 + |s.data|, Encode(s.next))
  {
    hide ToLE, FromLE, Head, Block;
    var head, body := Head(s.name, s.mode, s.extra), Block(PAYLOAD, s.data);
    AtSplit(data, pos, head, body + Encode(s.next));
    AtSplit(data, pos + |head|, body, Encode(s.next));
  }

  lemma DirParts(data: bytes, pos: nat, s: Siblings)
    requires s.Dir? && At(data, pos, Encode(s))
    ensures var body := pos + |Head(s.name, s.mode, s.extra)|; var bye := body + |Encode(s.kids)|;
      && At(data, pos, Head(s.name, s.mode, s.extra))
      && At(data, body, Encode(s.kids))
      && At(data, bye, GoodbyeBlock(s.table))
      && At(data, bye + |GoodbyeBlock(s.table)|, Encode(s.next))
  {
    hide ToLE, FromLE, Head, GoodbyeBlock, At;
    AtSplitFour(data, pos, Head(s.name, s.mode, s.extra), Encode(s.kids), GoodbyeBlock(s.table), Encode(s.next));
  }

  lemma ArchiveParts(data: bytes, a: Archive)
    requires data == EncodeArchive(a)
    ensures var body := |EntryBlock(a.mode, a.extra)|; var bye := body + |Encode(a.kids)|;
      && At(data, 0, EntryBlock(a.mode, a.extra))
      && At(data, body, Encode(a.kids))
      && At(data, bye, GoodbyeBlock(a.table))
  {
    var root := EntryBlock(a.mode, a.extra);
    assert data[0..|data|] == data;
    AtSplit(data, 0, root, Encode(a.kids) + GoodbyeBlock(a.table));
    AtSplit(data, |root|, Encode(a.kids), GoodbyeBlock(a.table));
  }

  /** The positions are right: at each one stands that file's PAYLOAD block. */
  lemma {:induction false} FileIsWhereItSays(s: Siblings, dir: bytes, off: nat, stream: bytes, f: Located)
    requires At(stream, off, Encode(s)) && f in Files(s, dir, off)
    ensures At(stream, f.pos.offset, Block(PAYLOAD, f.data))
    ensures f.pos == FilePos(f.pos.offset, |f.data|, f.pos.offset, f.pos.offset + 16 + |f.data|)
  {
    hide ToLE, FromLE, Head, GoodbyeBlock, Block, At, Encode;
    match s
    case File(name, mode, extra, data, next) =>
      FileParts(stream, off, s);
      if f != Files(s, dir, off)[0] {
        FileIsWhereItSays(next, dir, off + |Head(name, mode, extra)| + 16 + |data|, stream, f);
      }
    case Dir(name, mode, extra, kids, table, next) =>
      DirParts(stream, off, s);
      var at := off + |Head(name, mode, extra)|;
      if f in Files(kids, Join(dir, name), at) {
        FileIsWhereItSays(kids, Join(dir, name), at, stream, f);
      } else {
        FileIsWhereItSays(next, dir, at + |Encode(kids)| + |GoodbyeBlock(table)|, stream, f);
      }
  }

  lemma ArchiveFileIsWhereItSays(a: Archive, f: Located)
    requires f in ArchiveFiles(a)
    ensures At(EncodeArchive(a), f.pos.offset, Block(PAYLOAD, f.data))
    ensures f.pos == FilePos(f.pos.offset, |f.data|, f.pos.offset, f.pos.offset + 16 + |f.data|)
  {
    var stream, root := EncodeArchive(a), EntryBlock(a.mode, a.extra);
    ArchiveParts(stream, a);
    FileIsWhereItSays(a.kids, [], |root|, stream, f);
  }

  // What a reader finds in the header blocks.

  lemma HeaderAt(data: bytes, pos: nat, tag: nat, size: nat)
    requires At(data, pos, BlockHeader(tag, size)) && tag < TWO_64 && 16 + size <= MAX_INT
    ensures U64(data, pos) == tag && U64(data, pos + 8) == 16 + size
  {
    hide ToLE, FromLE;
    AtSplit(data, pos, LE64(tag), LE64(16 + size));
    AtU64(data, pos, tag);
    AtU64(data, pos + 8, 16 + size);
  }

  lemma BlockAt(data: bytes, pos: nat, tag: nat, body: bytes)
    requires At(data, pos, Block(tag, body)) && tag < TWO_64 && |data| <= MAX_INT
    ensures U64(data, pos) == tag && U64(data, pos + 8) == 16 + |body|
    ensures At(data, pos + 16, body)
  {
    hide ToLE, FromLE;
    AtSplit(data, pos, BlockHeader(tag, |body|), body);
    HeaderAt(data, pos, tag, |body|);
  }

  lemma EntryAt(data: bytes, pos: nat, mode: nat, extra: bytes)
    requires At(data, pos, EntryBlock(mode, extra)) && |data| <= MAX_INT && mode < TWO_64
    ensures U64(data, pos) == ENTRY && U64(data, pos + 8) == 24 + |extra| && U64(data, pos + 16) == mode
  {
    hide ToLE, FromLE;
    BlockAt(data, pos, ENTRY, LE64(mode) + extra);
    AtSplit(data, pos + 16, LE64(mode), extra);
    AtU64(data, pos + 16, mode);
  }

  lemma HeadAt(data: bytes, pos: nat, name: bytes, mode: nat, extra: bytes)
    requires At(data, pos, Head(name, mode, extra)) && |data| <= MAX_INT && mode < TWO_64
    ensures U64(data, pos) == FILENAME && U64(data, pos + 8) == 17 + |name|
    ensures data[pos + 16..pos + 16 + |name|] == name && data[pos + 16 + |name|] == 0
    ensures var e := pos + 17 + |name|;
      U64(data, e) == ENTRY && U64(data, e + 8) == 24 + |extra| && U64(data, e + 16) == mode
  {
    hide ToLE, FromLE;
    AtSplit(data, pos, FilenameBlock(name), EntryBlock(mode, extra));
    BlockAt(data, pos, FILENAME, name + [0]);
    AtSplit(data, pos + 16, name, [0]);
    assert data[pos + 16 + |name|..pos + 16 + |name| + 1][0] == 0;
    EntryAt(data, pos + 17 + |name|, mode, extra);
  }
}
