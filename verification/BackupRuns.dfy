/** One backup: the archive writer walks the tree and calls back, and the stream is cut into chunks. */
module BackupRuns {
  import opened Bytes
  import opened PxarFormat
  import opened PxarStreamSpec
  import opened PxarTokens
  import opened PxarRows
  import opened PxarTrees
  import opened PxarIndexTheorem
  import opened GoodbyeTables
  import opened GoodbyeBst
  import opened ChunkLayout
  import opened ChunkStream
  import opened ChunkSpans
  import opened FI = FastIncremental
  import opened BackupSession
  import opened WriterCuts
  import opened PxarWriter
  import D = Didx

  /** Chunks that are stored whole are a proper reuse list. */
  lemma StoredIsProper(hash: Hash, store: map<Digest, bytes>, chunks: seq<FastChunk>)
    requires Collisionless(hash) && Honest(hash, store)
    requires forall ch <- chunks :: ch.digest in store && |store[ch.digest]| == ch.len
    ensures Proper(hash, store, chunks)
  {
    forall ch <- chunks
      ensures ch.digest != [] && hash.wellFormed(ch.digest)
    {
      assert hash.sha(store[ch.digest]) == ch.digest;
    }
  }

  /** The batch the writer collects of a file before it flushes. */
  const FLUSH_BATCH: nat := 0x10_0000

  /** The recorder rests wherever a slice of the buffer ends. */
  ghost predicate FlushesWell(seen: bytes, buffer: bytes) {
    forall k | 0 <= k <= |buffer| && (k == |buffer| || k % FLUSH_SCRATCH == 0) :: Restful(seen + buffer[..k])
  }

  /** No slice of this part of a block ends in a header window. */
  predicate SlicesWell(t: Token, j: nat, n: nat) {
    forall k | j <= k <= j + n && (k == j + n || (k - j) % FLUSH_SCRATCH == 0) :: !InHeaderWindow(t, k)
  }

  /** Part of a block, no slice of which ends in a header window, can be flushed. */
  lemma PartFlushes(before: seq<Token>, t: Token, after: seq<Token>, j: nat, n: nat)
    requires Readable(RootEntry, before + [t] + after) && |Row(before + [t] + after)| <= MAX_INT
    requires j + n <= |TokenBytes(t)|
    requires SlicesWell(t, j, n)
    ensures FlushesWell(Row(before) + TokenBytes(t)[..j], TokenBytes(t)[j..j + n])
  {
    hide Row, Readable, TokenBytes, InHeaderWindow, Restful;
    var toks, b, part := before + [t] + after, TokenBytes(t), TokenBytes(t)[j..j + n];
    assert toks[..|before|] == before && toks[|before|] == t;
    forall k | 0 <= k <= |part| && (k == |part| || k % FLUSH_SCRATCH == 0)
      ensures Restful(Row(before) + b[..j] + part[..k])
    {
      assert (j + k - j) % FLUSH_SCRATCH == k % FLUSH_SCRATCH;
      RestAt(toks, |before|, j + k);
      assert Row(before) + b[..j] + part[..k] == Row(before) + b[..j + k];
    }
  }

  lemma HeadersFlush(before: seq<Token>, t: Token, after: seq<Token>)
    requires Readable(RootEntry, before + [t] + after) && |Row(before + [t] + after)| <= MAX_INT
    requires t.Leaf? && |Head(t.name, t.mode, t.extra)| + 16 <= FLUSH_SCRATCH
    ensures FlushesWell(Row(before), LeafStart(t, 0))
  {
    hide Row, Readable, TokenBytes, LeafStart, Head, Restful;
    LeafStartIsPrefix(t, 0);
    var n := |LeafStart(t, 0)|;
    PartFlushes(before, t, after, 0, n);
    assert Row(before) + TokenBytes(t)[..0] == Row(before) && TokenBytes(t)[0..n] == TokenBytes(t)[..n];
  }

  lemma MoreFlushes(before: seq<Token>, t: Token, after: seq<Token>, j: nat, n: nat)
    requires Readable(RootEntry, before + [t] + after) && |Row(before + [t] + after)| <= MAX_INT
    requires t.Leaf? && j + n <= |t.data|
    ensures FlushesWell(Row(before) + LeafStart(t, j), t.data[j..j + n])
    ensures LeafStart(t, j + n) == LeafStart(t, j) + t.data[j..j + n]
  {
    hide Row, Readable, TokenBytes, LeafStart, Head, Restful, FlushesWell;
    MoreOfLeaf(t, j, n);
    LeafStartIsPrefix(t, j);
    LeafStartIsPrefix(t, j + n);
    var i := |LeafStart(t, j)|;
    PartFlushes(before, t, after, i, n);
    assert TokenBytes(t)[i..i + n] == TokenBytes(t)[..i + n][i..];
  }

  lemma RowOfOneMore(before: seq<Token>, t: Token)
    ensures Row(before + [t]) == Row(before) + TokenBytes(t)
  {
    hide Row, TokenBytes;
    var toks := before + [t];
    SameTokens(toks, |before|);
    assert toks[..|before| + 1] == toks && toks[..|before|] == before;
  }

  /** A file just read is remembered with its headers. */
  lemma NowRemembers(content: Oracle, live: map<bytes, FileRecord>, origin: map<bytes, bytes>, rec: FileRecord, t: Tree)
    requires Remembers(content, live, origin) && t.OneFile? && Speaks(content, t.info, t.data)
    requires rec.size == t.info.stat.size && rec.mtime == t.info.stat.mtime && rec.pxarLen == FileLength(t)
    ensures Remembers(content, live[t.info.key := rec], origin[t.info.key := TokenBytes(LeafOf(t))])
  {
    hide Seconds, TotalLen, TokenBytes, Head;
    LeafStartIsPrefix(LeafOf(t), 0);
    LeafStartIsPrefix(LeafOf(t), |t.data|);
    MoreOfLeaf(LeafOf(t), 0, |t.data|);
    assert t.data[0..|t.data|] == t.data;
    var b := TokenBytes(LeafOf(t));
    assert b == LeafStart(LeafOf(t), 0) + t.data;
    assert EndsWith(b, t.data);
  }

  /** A directory's name and entry go out one after the other. */
  lemma DirOpens(before: seq<Token>, t: Token, list: seq<Token>, after: seq<Token>)
    requires t.Enter? && Readable(RootEntry, before + ([t] + list) + after)
    requires |Row(before + ([t] + list) + after)| <= MAX_INT
    ensures FlushesWell(Row(before), FilenameBlock(t.name))
    ensures FlushesWell(Row(before) + FilenameBlock(t.name), EntryBlock(t.mode, t.extra))
    ensures TokenBytes(t) == FilenameBlock(t.name) + EntryBlock(t.mode, t.extra) == Head(t.name, t.mode, t.extra)
    ensures before + ([t] + list) + after == (before + [t]) + list + after
  {
    hide Row, Readable, FilenameBlock, EntryBlock, FlushesWell;
    var b, f := TokenBytes(t), FilenameBlock(t.name);
    assert before + ([t] + list) + after == before + [t] + (list + after);
    PartFlushes(before, t, list + after, 0, |f|);
    PartFlushes(before, t, list + after, |f|, |b| - |f|);
    assert b[..0] == [] && Row(before) + [] == Row(before) && b[0..|f|] == f && b[..|f|] == f;
    assert b[|f|..|f| + (|b| - |f|)] == EntryBlock(t.mode, t.extra);
  }

  /** The row of the next entry, its position noted before and its length known behind it. */
  lemma NextRow(hashOf: bytes -> nat, cached: map<bytes, FileRecord>, rest: Tree, rows: seq<GoodbyeItem>, at: nat,
                end: nat)
    requires rest != Nothing && at + Advance(cached, rest) == end && forall x <- rows :: x.offset <= at
    ensures Advance(cached, rest.next) <= Advance(cached, rest)
    ensures var size := Advance(cached, rest) - Advance(cached, rest.next);
      Turned(rows + [GoodbyeItem(hashOf(rest.name), at, size)], end) + PxarWriter.Rows(hashOf, cached, rest.next)
      == Turned(rows, end) + PxarWriter.Rows(hashOf, cached, rest)
  {
    hide Advance, Turned;
    AdvanceShrinks(cached, rest);
    var x := GoodbyeItem(hashOf(rest.name), at, Advance(cached, rest) - Advance(cached, rest.next));
    TurnedOneMore(rows, x, end);
    Associative(Turned(rows, end), [x.(offset := end - at)], PxarWriter.Rows(hashOf, cached, rest.next));
  }

  lemma NoRows(hashOf: bytes -> nat, cached: map<bytes, FileRecord>, t: Tree, end: nat)
    ensures Turned([], end) + PxarWriter.Rows(hashOf, cached, t) == PxarWriter.Rows(hashOf, cached, t)
  {
    hide PxarWriter.Rows;
  }

  lemma ListSplits(before: seq<Token>, toks: seq<Token>, last: seq<Token>, after: seq<Token>)
    ensures before + (toks + last) + after == before + toks + (last + after) == (before + toks) + last + after
    ensures before + (toks + last) == (before + toks) + last
  {
  }

  /** How the next entry of a list continues what has been written. */
  lemma NextEntry(hashOf: bytes -> nat, cached: map<bytes, FileRecord>, origin: map<bytes, bytes>, rest: Tree,
                  fed: bytes, before: seq<Token>, done: seq<Token>, after: seq<Token>)
    requires rest != Nothing
    ensures var x, more := EntryTokens(hashOf, cached, rest), Tokens(Written(hashOf, cached, rest.next));
      && before + (done + Tokens(Written(hashOf, cached, rest))) + after == (before + done) + x + (more + after)
      && (before + done) + x == before + (done + x)
      && done + Tokens(Written(hashOf, cached, rest)) == (done + x) + more
    ensures fed + Emitted(hashOf, cached, origin, rest)
         == (fed + EntryBytes(hashOf, cached, origin, rest)) + Emitted(hashOf, cached, origin, rest.next)
  {
    hide EntryTokens, Tokens, Written, Emitted, EntryBytes;
    FirstEntry(hashOf, cached, origin, rest);
    Associative(fed, EntryBytes(hashOf, cached, origin, rest), Emitted(hashOf, cached, origin, rest.next));
    var x, more := EntryTokens(hashOf, cached, rest), Tokens(Written(hashOf, cached, rest.next));
    Associative(done, x, more);
    Associative(before, done, x);
    assert before + ((done + x) + more) + after == (before + (done + x)) + (more + after);
  }

  /** The rows that were noted, sorted, laid out and turned round, are the table of the directory. */
  lemma TableIsWritten(hashOf: bytes -> nat, cached: map<bytes, FileRecord>, entry: nat, t: Tree,
                       rows: seq<GoodbyeItem>, end: nat)
    requires (forall x <- rows :: x.offset <= end) && Turned(rows, end) == PxarWriter.Rows(hashOf, cached, t)
    ensures forall x <- GoodbyeTables.Laid(Sorted(rows)) :: x.offset <= end
    ensures Turned(GoodbyeTables.Laid(Sorted(rows)), end) + [TailItem(entry + Advance(cached, t), |rows|)]
         == TableWritten(hashOf, cached, entry, t)
  {
    hide Advance, PxarWriter.Rows, Sorted, GoodbyeTables.Laid, Turned;
    TurnedSorted(rows, end);
    TurnedLaid(Sorted(rows), end);
  }

  lemma ListCloses(before: seq<Token>, table: seq<GoodbyeItem>, after: seq<Token>)
    requires Readable(RootEntry, before + [Leave(table)] + after) && |Row(before + [Leave(table)] + after)| <= MAX_INT
    ensures FlushesWell(Row(before), GoodbyeBlock(table))
    ensures Row(before + [Leave(table)]) == Row(before) + GoodbyeBlock(table)
    ensures |GoodbyeBlock(table)| == 16 + 24 * |table|
  {
    hide Row, Readable, FlushesWell, Block;
    var t, b := Leave(table), GoodbyeBlock(table);
    PartFlushes(before, t, after, 0, |b|);
    assert b[..0] == [] && Row(before) + [] == Row(before) && b[0..|b|] == b;
    RowOfOneMore(before, t);
  }

  lemma EmptyList(hashOf: bytes -> nat, cached: map<bytes, FileRecord>, origin: map<bytes, bytes>)
    ensures Tokens(Written(hashOf, cached, Nothing)) == [] && Emitted(hashOf, cached, origin, Nothing) == []
    ensures PxarWriter.Rows(hashOf, cached, Nothing) == [] && Advance(cached, Nothing) == 0
  {
  }

  /** The archive writer: its position, and the callbacks it makes. */
  class Writer {
    const session: Session
    const hashOf: bytes -> nat
    ghost const content: Oracle
    /** Whether what the cache remembers can be relied on. */
    ghost const trusted: bool
    var pos: nat

    /** What the run may replay from. */
    function Cached(): map<bytes, FileRecord>
      reads session.fi`prev
    {
      if session.fi.reuseEnabled then session.fi.prev else map[]
    }

    ghost predicate Ready()
      reads this, session, session.chunk, session.recorder, session.fi
    {
      && session.InStep()
      && (trusted ==> Remembers(content, session.fi.prev, session.fi.prevOrigin))
      && (trusted ==> Remembers(content, session.fi.live, session.fi.liveOrigin))
    }

    constructor (session: Session, hashOf: bytes -> nat, ghost content: Oracle, ghost trusted: bool)
      ensures this.session == session && this.hashOf == hashOf && pos == 0
      ensures this.content == content && this.trusted == trusted
    {
      this.session, this.hashOf, this.content, this.trusted, pos := session, hashOf, content, trusted, 0;
    }

    /** The buffer goes out in slices. */
    method Flush(buffer: bytes)
      requires session.InStep() && FlushesWell(session.seen, buffer)
      modifies this, session, session.chunk, session.recorder
      ensures session.InStep() && Extends(old(session.chunk.store), session.chunk.store)
      ensures session.filePxarStart == old(session.filePxarStart) && pos == old(pos) + |buffer|
      ensures session.chunk.fed == old(session.chunk.fed) + buffer && session.seen == old(session.seen) + buffer
    {
      hide Restful, Collisionless, Honest, Flatten, Sound, Follows, ChunkStream.Indexed;
      var at := 0;
      ghost var store := session.chunk.store;
      while at < |buffer|
        invariant 0 <= at <= |buffer| && (at == |buffer| || at % FLUSH_SCRATCH == 0)
        invariant session.InStep() && Extends(store, session.chunk.store)
        invariant session.filePxarStart == old(session.filePxarStart) && pos == old(pos) + at
        invariant session.chunk.fed == old(session.chunk.fed) + buffer[..at]
        invariant session.seen == old(session.seen) + buffer[..at]
      {
        var end := if at + FLUSH_SCRATCH < |buffer| then at + FLUSH_SCRATCH else |buffer|;
        assert buffer[..end] == buffer[..at] + buffer[at..end];
        assert session.seen + buffer[at..end] == old(session.seen) + buffer[..end];
        assert session.chunk.fed + buffer[at..end] == old(session.chunk.fed) + buffer[..end];
        session.WriteCB(buffer[at..end]);
        pos := pos + (end - at);
        at := end;
      }
      assert buffer[..|buffer|] == buffer;
    }

    /** A file's bytes as they are read, in batches. */
    method CopyPayload(t: Tree, ghost before: seq<Token>, ghost after: seq<Token>)
      requires t.OneFile? && session.InStep() && session.seen == Row(before) + LeafStart(LeafOf(t), 0)
      requires Readable(RootEntry, before + [LeafOf(t)] + after) && |Row(before + [LeafOf(t)] + after)| <= MAX_INT
      modifies this, session, session.chunk, session.recorder
      ensures session.InStep() && Extends(old(session.chunk.store), session.chunk.store)
      ensures session.filePxarStart == old(session.filePxarStart) && pos == old(pos) + |t.data|
      ensures session.seen == Row(before) + LeafStart(LeafOf(t), |t.data|)
      ensures session.chunk.fed == old(session.chunk.fed) + t.data
    {
      hide Row, Readable, TokenBytes, LeafStart, Collisionless, Honest, Flatten, Sound, Follows, ChunkStream.Indexed,
           FlushesWell, Head;
      ghost var leaf, store := LeafOf(t), session.chunk.store;
      ghost var start, fed := session.filePxarStart, session.chunk.fed;
      var flushed, read := 0, 0;
      while read < |t.data|
        invariant 0 <= flushed <= read <= |t.data|
        invariant session.InStep() && Extends(store, session.chunk.store) && session.filePxarStart == start
        invariant session.chunk.fed == fed + t.data[..flushed] && pos == old(pos) + flushed
        invariant session.seen == Row(before) + LeafStart(leaf, flushed)
      {
        var n: nat :| 0 < n <= |t.data| - read;
        read := read + n;
        if read - flushed >= FLUSH_BATCH {
          MoreFlushes(before, leaf, after, flushed, read - flushed);
          JoinSlice(fed, t.data, flushed, read);
          Flush(t.data[flushed..read]);
          flushed := read;
        }
      }
      MoreFlushes(before, leaf, after, flushed, read - flushed);
      JoinSlice(fed, t.data, flushed, read);
      Flush(t.data[flushed..read]);
      assert t.data[..read] == t.data;
    }

    /** A file that is read: its headers, then its bytes, between the two marks. A record made of it is of both. */
    method ReadFile(t: Tree, ghost before: seq<Token>, ghost after: seq<Token>)
      requires t.OneFile? && Ready() && session.seen == Row(before)
      requires Readable(RootEntry, before + [LeafOf(t)] + after) && |Row(before + [LeafOf(t)] + after)| <= MAX_INT
      requires FileLength(t) - |t.data| <= FLUSH_SCRATCH && Speaks(content, t.info, t.data)
      modifies this, session, session.chunk, session.recorder, session.fi`live, session.fi`liveOrigin
      ensures Ready() && Extends(old(session.chunk.store), session.chunk.store)
      ensures session.seen == Row(before + [LeafOf(t)]) && pos == old(pos) + FileLength(t)
      ensures session.chunk.fed == old(session.chunk.fed) + TokenBytes(LeafOf(t))
      ensures t.info.key in session.fi.live && t.info.key !in old(session.fi.live) ==>
        && t.info.key in session.fi.liveOrigin && session.fi.liveOrigin[t.info.key] == TokenBytes(LeafOf(t))
        && session.fi.live[t.info.key].pxarLen == FileLength(t)
    {
      hide Row, Readable, TokenBytes, LeafStart, Collisionless, Honest, Flatten, Sound, Follows, ChunkStream.Indexed,
           Speaks, Remembers, FlushesWell, Head;
      ghost var leaf, fed := LeafOf(t), session.chunk.fed;
      session.OnFilePxarBegin();
      HeadersFlush(before, leaf, after);
      LeafStartIsPrefix(leaf, 0);
      LeafStartIsPrefix(leaf, |t.data|);
      Flush(LeafStart(LeafOf(t), 0));
      CopyPayload(t, before, after);
      RowOfOneMore(before, leaf);
      MoreOfLeaf(leaf, 0, |t.data|);
      assert t.data[0..|t.data|] == t.data;
      assert fed + LeafStart(leaf, 0) + t.data == fed + TokenBytes(leaf);
      assert session.chunk.fed[session.filePxarStart..] == TokenBytes(leaf);
      ghost var live, origin := session.fi.live, session.fi.liveOrigin;
      session.OnFilePxarEnd(t.info.key, t.info.stat);
      if trusted && (session.fi.live != live || session.fi.liveOrigin != origin) {
        NowRemembers(content, live, origin, session.fi.live[t.info.key], t);
      }
    }

    /** A file whose record is accepted: its headers, and the cached chunks. */
    method ReplayFile(t: Tree, chunks: seq<FastChunk>, ghost before: seq<Token>, ghost after: seq<Token>)
      requires t.OneFile? && session.InStep() && session.seen == Row(before)
      requires Readable(RootEntry, before + [LeafOf(t)] + after) && |Row(before + [LeafOf(t)] + after)| <= MAX_INT
      requires forall ch <- chunks :: ch.digest in session.chunk.store && |session.chunk.store[ch.digest]| == ch.len
      modifies session, session.chunk, session.recorder
      ensures session.InStep() && Extends(old(session.chunk.store), session.chunk.store)
      ensures session.seen == Row(before + [LeafOf(t)])
      ensures session.chunk.fed
           == old(session.chunk.fed) + (LeafStart(LeafOf(t), 0) + Replayed(old(session.chunk.store), chunks))
    {
      hide Row, Readable, TokenBytes, LeafStart, Flatten, Sound, Follows, ChunkStream.Indexed, Head, Drain, Replayed;
      ghost var leaf := LeafOf(t);
      ghost var fed, store := session.chunk.fed, session.chunk.store;
      StoredIsProper(session.chunk.hash, store, chunks);
      StateAfter(before, leaf, after);
      session.OnPxarChunksReuse(LeafStart(LeafOf(t), 0), chunks, t.data);
      RowOfOneMore(before, leaf);
      LeafStartIsPrefix(leaf, |t.data|);
      MoreOfLeaf(leaf, 0, |t.data|);
      assert t.data[0..|t.data|] == t.data;
      assert Row(before) + LeafStart(leaf, 0) + t.data == Row(before) + TokenBytes(leaf);
      assert fed + LeafStart(leaf, 0) + Replayed(store, chunks) == fed + (LeafStart(leaf, 0) + Replayed(store, chunks));
    }

    /** One file: replayed if the cache has it, else read. */
    method WriteFile(t: Tree, ghost before: seq<Token>, ghost after: seq<Token>)
      requires t.OneFile? && Ready() && session.seen == Row(before)
      requires Readable(RootEntry, before + [LeafOf(t)] + after) && |Row(before + [LeafOf(t)] + after)| <= MAX_INT
      requires FileLength(t) - |t.data| <= FLUSH_SCRATCH && Speaks(content, t.info, t.data)
      modifies this, session, session.chunk, session.recorder, session.fi`live, session.fi`liveOrigin
      ensures Ready() && Extends(old(session.chunk.store), session.chunk.store)
      ensures session.seen == Row(before + [LeafOf(t)])
      ensures pos == old(pos) + if Replays(Cached(), t.info) then 0 else FileLength(t)
      ensures session.chunk.fed == old(session.chunk.fed) + FileBytes(Cached(), session.fi.prevOrigin, t)
    {
      hide Row, Readable, TokenBytes, LeafStart, Collisionless, Honest, Flatten, Sound, Follows, ChunkStream.Indexed,
           Speaks, Head, Drain, Replayed, TotalLen, Accepts, SpansReusable, SpansGive;
      var fi, info := session.fi, t.info;
      if CanReuse(fi.prev, info.key, info.stat).Some? && SpansReusable(fi.prev[info.key].spans) {
        AcceptedIsSound(fi, info.key, info.stat, session.chunk.store);
      }
      var cached := fi.ReuseChunkSpans(info.key, info.stat);
      if cached.Some? {
        assert session.InStep();
        ReplayFile(t, cached.value, before, after);
      } else {
        ReadFile(t, before, after);
      }
    }

    /** The next entry of a directory. */
    method WriteEntry(t: Tree, ghost before: seq<Token>, ghost after: seq<Token>)
      requires t != Nothing && Ready() && session.seen == Row(before)
      requires NamesGiven(t) && Truthful(content, t)
      requires Readable(RootEntry, before + EntryTokens(hashOf, Cached(), t) + after)
      requires |Row(before + EntryTokens(hashOf, Cached(), t) + after)| <= MAX_INT
      modifies this, session, session.chunk, session.recorder, session.fi`live, session.fi`liveOrigin
      ensures Ready() && Extends(old(session.chunk.store), session.chunk.store)
      ensures session.seen == Row(before + EntryTokens(hashOf, Cached(), t))
      ensures pos == old(pos) + Advance(Cached(), t) - Advance(Cached(), t.next)
      ensures session.chunk.fed
           == old(session.chunk.fed) + EntryBytes(hashOf, Cached(), session.fi.prevOrigin, t)
      decreases t, 2
    {
      hide Row, Readable, Head, Ready, FileBytes, Speaks, TableWritten, EntryBlock, GoodbyeBlock;
      if t.OneFile? {
        WriteFile(t, before, after);
      } else {
        WriteDir(t, before, after);
      }
    }

    /** A directory's name and entry; the writer notes where the entry starts. */
    method OpenDir(t: Tree, ghost before: seq<Token>, ghost list: seq<Token>, ghost after: seq<Token>)
      returns (start: nat)
      requires t.OneDir? && Ready() && session.seen == Row(before)
      requires Readable(RootEntry, before + ([EnterOf(t)] + list) + after)
      requires |Row(before + ([EnterOf(t)] + list) + after)| <= MAX_INT
      modifies this, session, session.chunk, session.recorder
      ensures Ready() && Extends(old(session.chunk.store), session.chunk.store)
      ensures session.seen == Row(before + [EnterOf(t)])
      ensures pos == old(pos) + |TokenBytes(EnterOf(t))| == start + |EntryBlock(DIR_MODE, t.extra)|
      ensures session.chunk.fed == old(session.chunk.fed) + TokenBytes(EnterOf(t))
    {
      hide Row, Readable, Head, EntryBlock, FilenameBlock, FlushesWell, Follows, Sound, TokenBytes, Remembers;
      ghost var fed := session.chunk.fed;
      DirOpens(before, EnterOf(t), list, after);
      RowOfOneMore(before, EnterOf(t));
      var f, e := FilenameBlock(t.name), EntryBlock(DIR_MODE, t.extra);
      Flush(f);
      start := pos;
      Flush(e);
      Associative(fed, f, e);
      Associative(Row(before), f, e);
    }

    /** A directory: its name and entry, what is in it, and its goodbye table. */
    method WriteDir(t: Tree, ghost before: seq<Token>, ghost after: seq<Token>)
      requires t.OneDir? && Ready() && session.seen == Row(before)
      requires NamesGiven(t) && Truthful(content, t)
      requires Readable(RootEntry, before + EntryTokens(hashOf, Cached(), t) + after)
      requires |Row(before + EntryTokens(hashOf, Cached(), t) + after)| <= MAX_INT
      modifies this, session, session.chunk, session.recorder, session.fi`live, session.fi`liveOrigin
      ensures Ready() && Extends(old(session.chunk.store), session.chunk.store)
      ensures session.seen == Row(before + EntryTokens(hashOf, Cached(), t))
      ensures pos == old(pos) + Advance(Cached(), t) - Advance(Cached(), t.next)
      ensures session.chunk.fed
           == old(session.chunk.fed) + EntryBytes(hashOf, Cached(), session.fi.prevOrigin, t)
      decreases t, 1
    {
      hide Row, Readable, TokenBytes, ListTokens, ListBytes, Speaks, Truthful, NamesGiven, Advance, Ready,
           Cached, EntryBlock;
      ghost var cached, fed := Cached(), session.chunk.fed;
      ghost var entry := |EntryBlock(DIR_MODE, t.extra)|;
      ghost var enter, list := EnterOf(t), ListTokens(hashOf, cached, entry, t.kids);
      EntryFacts(content, cached, t);
      EnterSpelt(t);
      Associative(before, [enter], list);
      var start := OpenDir(t, before, list, after);
      WriteEntries(t.kids, start, before + [enter], after);
      Associative(fed, TokenBytes(enter), ListBytes(hashOf, cached, session.fi.prevOrigin, entry, t.kids));
    }

    /** The goodbye table, from the positions noted on the way. */
    method WriteGoodbye(rows: seq<GoodbyeItem>, start: nat, ghost before: seq<Token>, ghost table: seq<GoodbyeItem>,
                        ghost after: seq<Token>)
      requires Ready() && session.seen == Row(before) && start <= pos
      requires forall x <- rows :: x.offset <= pos
      requires forall x <- GoodbyeTables.Laid(Sorted(rows)) :: x.offset <= pos
      requires table == Turned(GoodbyeTables.Laid(Sorted(rows)), pos) + [TailItem(pos - start, |rows|)]
      requires Readable(RootEntry, before + [Leave(table)] + after) && |Row(before + [Leave(table)] + after)| <= MAX_INT
      modifies this, session, session.chunk, session.recorder
      ensures Ready() && Extends(old(session.chunk.store), session.chunk.store)
      ensures session.seen == Row(before + [Leave(table)]) && pos == old(pos) + (16 + 24 * (|rows| + 1))
      ensures session.chunk.fed == old(session.chunk.fed) + GoodbyeBlock(table)
    {
      hide Row, Readable, GoodbyeBlock, FlushesWell, Follows, Sound, Sorted, Turned, Remembers;
      var sorted := SortByHash(rows);
      var laid := MakeBst(sorted);
      var written := Turned(laid, pos) + [TailItem(pos - start, |laid|)];
      ListCloses(before, table, after);
      Flush(GoodbyeBlock(written));
    }

    /** In writing `t`, all but `rest` has been written and its rows noted. */
    ghost predicate WrittenBut(rest: Tree, t: Tree, rows: seq<GoodbyeItem>, before: seq<Token>, done: seq<Token>,
                               fed: bytes, end: nat)
      reads this, session, session.chunk, session.fi
    {
      && done + Tokens(Written(hashOf, Cached(), rest)) == Tokens(Written(hashOf, Cached(), t))
      && session.seen == Row(before + done)
      && session.chunk.fed + Emitted(hashOf, Cached(), session.fi.prevOrigin, rest)
         == fed + Emitted(hashOf, Cached(), session.fi.prevOrigin, t)
      && pos + Advance(Cached(), rest) == end && (forall x <- rows :: x.offset <= pos)
      && Turned(rows, end) + PxarWriter.Rows(hashOf, Cached(), rest) == PxarWriter.Rows(hashOf, Cached(), t)
    }

    /** The next entry, and its row. */
    method WriteNext(rest: Tree, ghost t: Tree, rows: seq<GoodbyeItem>, ghost before: seq<Token>,
                     ghost done: seq<Token>, ghost after: seq<Token>, ghost fed: bytes, ghost end: nat)
      returns (more: seq<GoodbyeItem>, ghost now: seq<Token>)
      requires rest != Nothing && Ready() && NamesGiven(rest) && Truthful(content, rest)
      requires WrittenBut(rest, t, rows, before, done, fed, end)
      requires Readable(RootEntry, before + Tokens(Written(hashOf, Cached(), t)) + after)
      requires |Row(before + Tokens(Written(hashOf, Cached(), t)) + after)| <= MAX_INT
      modifies this, session, session.chunk, session.recorder, session.fi`live, session.fi`liveOrigin
      ensures Ready() && Extends(old(session.chunk.store), session.chunk.store)
      ensures WrittenBut(rest.next, t, more, before, now, fed, end)
      decreases rest, 3
    {
      hide Row, Readable, Emitted, Written, Tokens, EntryBytes, Truthful, NamesGiven, Advance, EntryTokens,
           PxarWriter.Rows, Turned, Ready, Cached;
      var startpos := pos;
      EntryFacts(content, Cached(), rest);
      NextEntry(hashOf, Cached(), session.fi.prevOrigin, rest, session.chunk.fed, before, done, after);
      NextRow(hashOf, Cached(), rest, rows, startpos, end);
      now := done + EntryTokens(hashOf, Cached(), rest);
      WriteEntry(rest, before + done, Tokens(Written(hashOf, Cached(), rest.next)) + after);
      more := rows + [GoodbyeItem(hashOf(rest.name), startpos, pos - startpos)];
    }

    /** The entries of a directory one after another, with the row of each. */
    method WriteAll(t: Tree, ghost before: seq<Token>, ghost after: seq<Token>) returns (rows: seq<GoodbyeItem>)
      requires Ready() && session.seen == Row(before)
      requires NamesGiven(t) && Truthful(content, t)
      requires Readable(RootEntry, before + Tokens(Written(hashOf, Cached(), t)) + after)
      requires |Row(before + Tokens(Written(hashOf, Cached(), t)) + after)| <= MAX_INT
      modifies this, session, session.chunk, session.recorder, session.fi`live, session.fi`liveOrigin
      ensures Ready() && Extends(old(session.chunk.store), session.chunk.store)
      ensures session.seen == Row(before + Tokens(Written(hashOf, Cached(), t)))
      ensures pos == old(pos) + Advance(Cached(), t)
      ensures session.chunk.fed == old(session.chunk.fed) + Emitted(hashOf, Cached(), session.fi.prevOrigin, t)
      ensures (forall x <- rows :: x.offset <= pos) && Turned(rows, pos) == PxarWriter.Rows(hashOf, Cached(), t)
      decreases t, 4
    {
      hide Row, Readable, Emitted, Written, Tokens, Truthful, NamesGiven, Advance, PxarWriter.Rows, Turned, Ready,
           Cached, WrittenBut;
      ghost var fed, store, end := session.chunk.fed, session.chunk.store, pos + Advance(Cached(), t);
      ghost var done: seq<Token> := [];
      NothingWritten(t, before);
      rows := [];
      var rest := t;
      while rest != Nothing
        invariant rest == t || rest < t
        invariant Ready() && Extends(store, session.chunk.store) && NamesGiven(rest) && Truthful(content, rest)
        invariant WrittenBut(rest, t, rows, before, done, fed, end)
        decreases rest
      {
        EntryFacts(content, Cached(), rest);
        rows, done := WriteNext(rest, t, rows, before, done, after, fed, end);
        rest := rest.next;
      }
      AllWritten(t, rows, before, done, fed, end);
    }

    lemma NothingWritten(t: Tree, before: seq<Token>)
      requires session.seen == Row(before)
      ensures WrittenBut(t, t, [], before, [], session.chunk.fed, pos + Advance(Cached(), t))
    {
      hide Row, Emitted, Written, Tokens, Advance, PxarWriter.Rows;
      assert before + [] == before;
      assert [] + Tokens(Written(hashOf, Cached(), t)) == Tokens(Written(hashOf, Cached(), t));
      NoRows(hashOf, Cached(), t, pos + Advance(Cached(), t));
    }

    lemma AllWritten(t: Tree, rows: seq<GoodbyeItem>, before: seq<Token>, done: seq<Token>, fed: bytes, end: nat)
      requires WrittenBut(Nothing, t, rows, before, done, fed, end)
      ensures done == Tokens(Written(hashOf, Cached(), t)) && session.seen == Row(before + done) && pos == end
      ensures session.chunk.fed == fed + Emitted(hashOf, Cached(), session.fi.prevOrigin, t)
      ensures (forall x <- rows :: x.offset <= pos) && Turned(rows, pos) == PxarWriter.Rows(hashOf, Cached(), t)
    {
      hide Row, Emitted, Written, Tokens, Advance, PxarWriter.Rows, Turned;
      EmptyList(hashOf, Cached(), session.fi.prevOrigin);
      assert done + [] == done && session.chunk.fed + [] == session.chunk.fed;
      assert Turned(rows, end) + [] == Turned(rows, end);
    }

    /** The entries of a directory, then its table. */
    method WriteEntries(t: Tree, start: nat, ghost before: seq<Token>, ghost after: seq<Token>)
      requires Ready() && session.seen == Row(before) && start <= pos
      requires NamesGiven(t) && Truthful(content, t)
      requires Readable(RootEntry, before + ListTokens(hashOf, Cached(), pos - start, t) + after)
      requires |Row(before + ListTokens(hashOf, Cached(), pos - start, t) + after)| <= MAX_INT
      modifies this, session, session.chunk, session.recorder, session.fi`live, session.fi`liveOrigin
      ensures Ready() && Extends(old(session.chunk.store), session.chunk.store)
      ensures session.seen == Row(before + ListTokens(hashOf, Cached(), old(pos) - start, t))
      ensures pos == old(pos) + Advance(Cached(), t) + (16 + 24 * (Count(t) + 1))
      ensures session.chunk.fed
           == old(session.chunk.fed) + ListBytes(hashOf, Cached(), session.fi.prevOrigin, old(pos) - start, t)
      decreases t, 5
    {
      hide Row, Readable, TableWritten, Emitted, Written, Tokens, Truthful, NamesGiven, Advance, PxarWriter.Rows,
           Turned, Sorted, GoodbyeTables.Laid, Ready, Cached, GoodbyeBlock;
      ghost var cached, origin, fed := Cached(), session.fi.prevOrigin, session.chunk.fed;
      ghost var entry := pos - start;
      ghost var table := TableWritten(hashOf, cached, entry, t);
      ghost var toks := Tokens(Written(hashOf, cached, t));
      ListSplits(before, toks, [Leave(table)], after);
      Associative(fed, Emitted(hashOf, cached, origin, t), GoodbyeBlock(table));
      var rows := WriteAll(t, before, [Leave(table)] + after);
      TableIsWritten(hashOf, cached, entry, t, rows, pos);
      WriteGoodbye(rows, start, before + toks, table, after);
    }

    /** The whole of a source. */
    method WriteTop(src: Source)
      requires Ready() && session.seen == session.chunk.fed == [] && pos == 0
      requires NamesGiven(src.top) && Truthful(content, src.top)
      requires |EncodeArchive(ArchiveOf(hashOf, src))| <= MAX_INT
      modifies this, session, session.chunk, session.recorder, session.fi`live, session.fi`liveOrigin
      ensures Ready() && Extends(old(session.chunk.store), session.chunk.store)
      ensures session.seen == EncodeArchive(WrittenArchive(hashOf, Cached(), src))
      ensures session.chunk.fed == EmittedArchive(hashOf, Cached(), session.fi.prevOrigin, src)
      ensures session.recorder.index == FoldIndex(map[], ArchiveFiles(WrittenArchive(hashOf, Cached(), src)))
    {
      hide Row, Readable, TableWritten, EntryBlock, NamesGiven, Truthful, Remembers, Follows, Sound, ListTokens,
           ListBytes, EncodeArchive, ArchiveOf, ArchiveFiles, FlushesWell, FoldIndex, Advance;
      ghost var a := WrittenArchive(hashOf, Cached(), src);
      ghost var entry := EntryBlock(DIR_MODE, src.extra);
      ghost var list := ListTokens(hashOf, Cached(), |entry|, src.top);
      RootOpens(hashOf, Cached(), src, list);
      Flush(EntryBlock(DIR_MODE, src.extra));
      assert [] + entry == entry;
      WriteEntries(src.top, 0, [Root(DIR_MODE, src.extra)], []);
      RecordedIndex(a, session.recorder.View());
    }
  }

  /** The root's entry goes out by itself; the archive's blocks are it and the list behind it. */
  lemma RootOpens(hashOf: bytes -> nat, cached: map<bytes, FileRecord>, src: Source, list: seq<Token>)
    requires NamesGiven(src.top) && |EncodeArchive(ArchiveOf(hashOf, src))| <= MAX_INT
    requires list == ListTokens(hashOf, cached, |EntryBlock(DIR_MODE, src.extra)|, src.top)
    ensures var root, a := Root(DIR_MODE, src.extra), WrittenArchive(hashOf, cached, src);
      && WellFormedArchive(a) && |EncodeArchive(a)| <= MAX_INT
      && Row([root]) == EntryBlock(DIR_MODE, src.extra)
      && Row([root] + list) == EncodeArchive(a) && [root] + list + [] == [root] + list
      && Readable(RootEntry, [root] + list) && FlushesWell([], EntryBlock(DIR_MODE, src.extra))
  {
    hide Row, Readable, TableWritten, EntryBlock, EncodeArchive, NamesGiven, FlushesWell, Written;
    var root, a := Root(DIR_MODE, src.extra), WrittenArchive(hashOf, cached, src);
    var entry := EntryBlock(DIR_MODE, src.extra);
    WrittenIsWellFormed(hashOf, cached, src.top);
    ArchiveLength(hashOf, cached, src);
    ArchiveLength(hashOf, map[], src);
    RowOfArchive(a);
    ArchiveIsReadable(a);
    EmptyRow();
    RowOfOneMore([], root);
    assert [] + [root] == [root] && [] + TokenBytes(root) == TokenBytes(root) && [] + [root] + list == [root] + list;
    PartFlushes([], root, list, 0, |entry|);
    assert Row([]) + entry[..0] == [] && entry[0..|entry|] == entry;
  }

  /** A recorder that followed the whole archive holds its index. */
  lemma RecordedIndex(a: Archive, p: Parser)
    requires WellFormedArchive(a) && |EncodeArchive(a)| <= MAX_INT && Follows(p, EncodeArchive(a))
    ensures p.core.index == FoldIndex(map[], ArchiveFiles(a))
  {
    hide Drain, EncodeArchive, WellFormedArchive, ArchiveFiles, CutsAFile;
    var whole := EncodeArchive(a);
    RecorderIsExact(a, [whole]);
    assert [] + whole == whole;
  }

  /** After the headers of a file the recorder waits for its payload. */
  lemma StateAfter(before: seq<Token>, t: Token, after: seq<Token>)
    requires t.Leaf?
    requires Readable(RootEntry, before + [t] + after) && |Row(before + [t] + after)| <= MAX_INT
    ensures Announces(Drain(Parser(Recorder(), Row(before) + LeafStart(t, 0))), t.data)
  {
    hide Row, Readable, LeafStart, Drain;
    var toks := before + [t] + after;
    assert toks[..|before|] == before && toks[|before|] == t;
    StateAfterHeaders(toks, |before|);
  }

  lemma JoinSlice(fed: bytes, data: bytes, i: nat, j: nat)
    requires i <= j <= |data|
    ensures fed + data[..i] + data[i..j] == fed + data[..j]
    ensures data[i..i + (j - i)] == data[i..j]
  {
  }

  // The run as a whole.

  /** The records resolve to chunks that are the stream. */
  ghost predicate Restorable(records: seq<Record>, store: map<Digest, bytes>, stream: bytes) {
    && (forall r <- records :: r.digest in store)
    && Describes(records, D.ChunksOf(records, store)) && Flatten(D.ChunksOf(records, store)) == stream
  }

  lemma RestorableStays(records: seq<Record>, small: map<Digest, bytes>, big: map<Digest, bytes>, stream: bytes)
    requires Restorable(records, small, stream) && Extends(small, big)
    ensures Restorable(records, big, stream)
  {
    hide Flatten, Describes;
    assert D.ChunksOf(records, big) == D.ChunksOf(records, small);
  }

  /** What a finished chunk stream left on the server can be restored. */
  lemma FinishedIsRestorable(csum: seq<Record>, pieces: seq<bytes>, assignments: seq<Digest>, offsets: seq<nat>,
                             store: map<Digest, bytes>)
    requires ChunkStream.Indexed(assignments, offsets, csum, pieces, store)
    ensures Restorable(csum, store, Flatten(pieces))
  {
    hide Flatten, Describes;
    assert D.ChunksOf(csum, store) == pieces;
  }

  lemma CloseStream(c: ChunkState)
    requires c.Valid() && c.currentChunk == []
    ensures Restorable(c.csum, c.store, c.fed)
  {
    hide Flatten, ChunkStream.Indexed, Restorable, Collisionless, Honest;
    assert Flatten(c.pieces) + [] == Flatten(c.pieces);
    FinishedIsRestorable(c.csum, c.pieces, c.assignments, c.assignmentsOffset, c.store);
  }

  lemma NoCache(content: Oracle, origin: map<bytes, bytes>, store: map<Digest, bytes>)
    ensures Sound(map[], origin, store) && Remembers(content, map[], origin)
  {
  }

  /** A new session and its writer; which of the stored chunks the server names beforehand is left open. */
  method Begin(hash: Hash, hashOf: bytes -> nat, store: map<Digest, bytes>, disk: map<bytes, FileRecord>,
               ghost origin: map<bytes, bytes>, ready: bool, forceFull: bool, ghost content: Oracle)
    returns (w: Writer)
    requires Collisionless(hash) && Honest(hash, store) && Sound(disk, origin, store)
    ensures fresh(w) && fresh(w.session) && fresh(w.session.chunk) && fresh(w.session.recorder) && fresh(w.session.fi)
    ensures w.Ready() && w.hashOf == hashOf && w.content == content && w.pos == 0
    ensures w.trusted <==> Remembers(content, disk, origin)
    ensures w.session.seen == w.session.chunk.fed == [] && w.session.chunk.store == store
    ensures w.session.chunk.hash == hash && w.session.fi.prevOrigin == origin
    ensures w.Cached() == if !forceFull && disk != map[] && ready then disk else map[]
  {
    hide Collisionless, Honest, Sound, Remembers, Flatten, Follows, ChunkStream.Indexed;
    NoCache(content, map[], store);
    NoCache(content, origin, store);
    assert {} <= store.Keys;
    var known: set<Digest> :| known <= store.Keys;
    var fi := new FastIncremental(disk, origin, ready, forceFull);
    var s := new Session(hash, store, known, fi);
    w := new Writer(s, hashOf, content, Remembers(content, disk, origin));
  }

  /** The end of the stream: its last chunk and the index. */
  method Finish(s: Session)
    requires s.Valid()
    modifies s.chunk
    ensures s.Valid() && Extends(old(s.chunk.store), s.chunk.store)
    ensures Restorable(s.chunk.csum, s.chunk.store, old(s.chunk.fed))
  {
    hide Collisionless, Honest, Sound, Restorable, Flatten, ChunkStream.Indexed;
    var _, _, _ := s.chunk.Eof();
    CloseStream(s.chunk);
    s.CarrySound(old(s.chunk.store));
  }

  /** A backup from the cache file's records to the closed index. */
  method OneRun(hash: Hash, hashOf: bytes -> nat, store: map<Digest, bytes>, disk: map<bytes, FileRecord>,
                ghost origin: map<bytes, bytes>, ready: bool, forceFull: bool, src: Source, ghost content: Oracle)
    returns (s: Session)
    requires Collisionless(hash) && Honest(hash, store)
    requires Sound(disk, origin, store)
    requires NamesGiven(src.top) && Truthful(content, src.top) && |EncodeArchive(ArchiveOf(hashOf, src))| <= MAX_INT
    ensures fresh(s) && Honest(hash, s.chunk.store) && Extends(store, s.chunk.store)
    ensures var cached := if !forceFull && disk != map[] && ready then disk else map[];
      && Restorable(s.chunk.csum, s.chunk.store, EmittedArchive(hashOf, cached, origin, src))
      && s.recorder.index == FoldIndex(map[], ArchiveFiles(WrittenArchive(hashOf, cached, src)))
    ensures Sound(s.fi.live, s.fi.liveOrigin, s.chunk.store)
    ensures Remembers(content, disk, origin) ==> Remembers(content, s.fi.live, s.fi.liveOrigin)
  {
    hide Collisionless, Honest, Sound, Remembers, Restorable, EncodeArchive, Truthful, NamesGiven, Flatten, Follows,
         ChunkStream.Indexed, EmittedArchive, WrittenArchive, ArchiveFiles, FoldIndex, ArchiveOf;
    var w := Begin(hash, hashOf, store, disk, origin, ready, forceFull, content);
    s := w.session;
    w.WriteTop(src);
    Finish(s);
  }
}
