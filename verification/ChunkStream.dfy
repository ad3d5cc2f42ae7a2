/**
 The writing side of a chunked stream: bytes are cut where the chunker says, chunks the
 server already has are not sent again, and cached chunks are replayed in between.
 */
module ChunkStream {
  import opened Bytes
  import opened ChunkLayout

  /** The digest function, and the test that a text from the cache decodes to one of its values. */
  datatype Hash = Hash(sha: bytes -> Digest, wellFormed: Digest -> bool)

  /**
   SHA-256 taken as free of collisions. Values of 32 bytes cannot all be different, so the
   length is not part of the idealisation: the test for it is one that all digests pass.
   */
  ghost predicate Collisionless(h: Hash) {
    && (forall x, y {:trigger h.sha(x), h.sha(y)} :: h.sha(x) == h.sha(y) ==> x == y)
    && (forall x :: h.sha(x) != [] && h.wellFormed(h.sha(x)))
  }

  lemma IdealHashExists()
    ensures exists h :: Collisionless(h)
  {
    var h := Hash((x: bytes) => [0] + x, (d: Digest) => true);
    forall x, y | h.sha(x) == h.sha(y)
      ensures x == y
    {
      assert x == h.sha(x)[1..] && y == h.sha(y)[1..];
    }
    assert Collisionless(h);
  }

  /** Content-defined chunking as an oracle: a cut anywhere in the buffer, or 0 for none. */
  class Chunker {
    constructor () {}

    method Scan(b: bytes) returns (cut: nat)
      ensures cut <= |b|
    {
      cut :| 0 <= cut <= |b|;
    }
  }

  /** Every stored chunk is filed under its own digest. */
  ghost predicate Honest(h: Hash, store: map<Digest, bytes>) {
    forall d <- store :: h.sha(store[d]) == d
  }

  /** The index of these chunks: start offsets, end offsets and digests that the store resolves. */
  ghost predicate Indexed(assignments: seq<Digest>, offsets: seq<nat>, csum: seq<Record>, pieces: seq<bytes>,
                          store: map<Digest, bytes>)
  {
    && |assignments| == |offsets| == |csum| == |pieces|
    && (forall i | 0 <= i < |pieces| :: assignments[i] in store && store[assignments[i]] == pieces[i])
    && (forall i | 0 <= i < |pieces| :: csum[i].digest == assignments[i])
    && (forall i | 0 <= i < |pieces| :: offsets[i] == ChunkStart(csum, i))
    && Describes(csum, pieces)
  }

  lemma IndexedGrows(assignments: seq<Digest>, offsets: seq<nat>, csum: seq<Record>, pieces: seq<bytes>,
                     store: map<Digest, bytes>, store': map<Digest, bytes>, digest: Digest, piece: bytes)
    requires Indexed(assignments, offsets, csum, pieces, store) && Extends(store, store')
    requires piece != [] && digest in store' && store'[digest] == piece
    ensures var pos := |Flatten(pieces)|;
      Indexed(assignments + [digest], offsets + [pos], csum + [Record(pos + |piece|, digest)], pieces + [piece], store')
    ensures Flatten(pieces + [piece]) == Flatten(pieces) + piece
  {
    hide Flatten;
    var pos := |Flatten(pieces)|;
    PiecesGrow(csum, pieces, Record(pos + |piece|, digest), piece);
    if csum != [] { EndOfLast(csum, pieces); } else { EmptyPieces(pieces); }
    var csum' := csum + [Record(pos + |piece|, digest)];
    assert forall i | 0 <= i < |csum| :: ChunkStart(csum', i) == ChunkStart(csum, i);
    assert ChunkStart(csum', |csum|) == pos;
  }

  lemma EmptyPieces(pieces: seq<bytes>)
    requires pieces == []
    ensures Flatten(pieces) == []
  {
  }

  /** What the server holds under the digest of these bytes is these bytes. */
  lemma KnownIsSame(h: Hash, store: map<Digest, bytes>, b: bytes)
    requires Collisionless(h) && Honest(h, store)
    ensures h.sha(b) in store ==> store[h.sha(b)] == b
  {
  }

  /** Storing a chunk under its own digest keeps the store honest and everything in it. */
  lemma StoreGrows(h: Hash, store: map<Digest, bytes>, store': map<Digest, bytes>, digest: Digest, piece: bytes)
    requires Collisionless(h) && Honest(h, store)
    requires (store' == store && digest in store) || (store' == store[digest := piece] && digest == h.sha(piece))
    ensures Honest(h, store') && Extends(store, store') && digest in store' && store.Keys <= store'.Keys
  {
  }

  datatype FastChunk = FastChunk(digest: Digest, len: int)

  /** Entries the replay passes over. */
  predicate Skipped(ch: FastChunk) {
    ch.len <= 0 || ch.digest == []
  }

  /** The bytes a reuse list stands for. */
  function Replayed(store: map<Digest, bytes>, chunks: seq<FastChunk>): bytes
    requires forall ch <- chunks :: Skipped(ch) || ch.digest in store
  {
    if chunks == [] then [] else
      (if Skipped(chunks[0]) then [] else store[chunks[0].digest]) + Replayed(store, chunks[1..])
  }

  predicate Extends(small: map<Digest, bytes>, big: map<Digest, bytes>) {
    forall k <- small :: k in big && big[k] == small[k]
  }

  lemma {:induction false} ReplayedStable(small: map<Digest, bytes>, big: map<Digest, bytes>, chunks: seq<FastChunk>)
    requires Extends(small, big) && forall ch <- chunks :: Skipped(ch) || ch.digest in small
    ensures Replayed(big, chunks) == Replayed(small, chunks)
  {
    if chunks != [] {
      ReplayedStable(small, big, chunks[1..]);
    }
  }

  lemma {:induction false} ReplayedAppend(store: map<Digest, bytes>, a: seq<FastChunk>, b: seq<FastChunk>)
    requires forall ch <- a + b :: Skipped(ch) || ch.digest in store
    requires forall ch <- a :: Skipped(ch) || ch.digest in store
    requires forall ch <- b :: Skipped(ch) || ch.digest in store
    ensures Replayed(store, a + b) == Replayed(store, a) + Replayed(store, b)
  {
    if a == [] {
      assert a + b == b && [] + Replayed(store, b) == Replayed(store, b);
    } else {
      var first := if Skipped(a[0]) then [] else store[a[0].digest];
      var ab := a + b;
      assert ab[0] == a[0] && ab[1..] == a[1..] + b;
      assert Replayed(store, ab) == first + Replayed(store, ab[1..]);
      assert Replayed(store, a) == first + Replayed(store, a[1..]);
      ReplayedAppend(store, a[1..], b);
      hide Replayed;
      Associative(first, Replayed(store, a[1..]), Replayed(store, b));
    }
  }

  class ChunkState {
    const hash: Hash
    const chunker: Chunker
    var assignments: seq<Digest>
    var assignmentsOffset: seq<nat>
    var pos: nat
    var chunkcount: nat
    /** What the index checksum has seen: the end offset and digest of every chunk. */
    var csum: seq<Record>
    var currentChunk: bytes
    var known: set<Digest>
    var bytesNew: nat
    var bytesReused: nat
    /** The server's chunk store. */
    var store: map<Digest, bytes>
    /** The chunks committed and all bytes taken in so far. */
    ghost var pieces: seq<bytes>
    ghost var fed: bytes

    ghost predicate Valid()
      reads this
    {
      && Collisionless(hash) && Honest(hash, store) && known <= store.Keys
      && Indexed(assignments, assignmentsOffset, csum, pieces, store)
      && chunkcount == |pieces| && pos == |Flatten(pieces)| && bytesNew + bytesReused == pos
      && fed == Flatten(pieces) + currentChunk
    }

    constructor (hash: Hash, store: map<Digest, bytes>, known: set<Digest>)
      requires Collisionless(hash) && Honest(hash, store) && known <= store.Keys
      ensures Valid() && this.hash == hash && this.store == store && this.known == known
      ensures fed == [] && pieces == [] && currentChunk == []
    {
      this.hash, this.store, this.known := hash, store, known;
      chunker := new Chunker();
      assignments, assignmentsOffset, csum, pieces := [], [], [], [];
      pos, chunkcount, bytesNew, bytesReused := 0, 0, 0, 0;
      currentChunk, fed := [], [];
    }

    /**
     One chunk enters the index: the pending bytes, or one the server has while nothing is pending.
     */
    method CommitChunk(digest: Digest, chunkLen: nat, inKnown: bool, ghost piece: bytes)
      requires Valid() && piece != [] && |piece| == chunkLen
      requires currentChunk == piece || currentChunk == []
      requires if inKnown then digest in store && store[digest] == piece
               else digest == hash.sha(piece) && currentChunk == piece
      modifies this
      ensures Valid() && currentChunk == [] && pieces == old(pieces) + [piece]
      ensures fed == if old(currentChunk) == [] then old(fed) + piece else old(fed)
      ensures Extends(old(store), store) && digest in known && old(known) <= known
      ensures assignments == old(assignments) + [digest]
      ensures store == if inKnown then old(store) else old(store)[digest := piece]
    {
      hide Flatten, Indexed, Collisionless, Honest, Extends;
      ghost var after := if inKnown then store else store[digest := piece];
      StoreGrows(hash, store, after, digest, piece);
      IndexedGrows(assignments, assignmentsOffset, csum, pieces, store, after, digest, piece);
      assert Flatten(pieces) + [] == Flatten(pieces) && Flatten(pieces + [piece]) + [] == Flatten(pieces + [piece]);
      fed, pieces := if currentChunk == [] then fed + piece else fed, pieces + [piece];
      SendOrCount(digest, chunkLen, inKnown);
      AppendAssignment(digest, chunkLen);
      currentChunk := [];
    }

    /** A new chunk is uploaded, a known one only counted. */
    method SendOrCount(digest: Digest, chunkLen: nat, inKnown: bool)
      modifies `store, `known, `bytesNew, `bytesReused
      ensures store == if inKnown then old(store) else old(store)[digest := currentChunk]
      ensures known == old(known) + {digest}
      ensures bytesNew == old(bytesNew) + if inKnown then 0 else chunkLen
      ensures bytesReused == old(bytesReused) + if inKnown then chunkLen else 0
    {
      if !inKnown {
        store := store[digest := currentChunk];
        bytesNew := bytesNew + chunkLen;
      } else {
        bytesReused := bytesReused + chunkLen;
      }
      known := known + {digest};
    }

    method AppendAssignment(digest: Digest, chunkLen: nat)
      modifies `csum, `assignmentsOffset, `assignments, `pos, `chunkcount
      ensures csum == old(csum) + [Record(old(pos) + chunkLen, digest)]
      ensures assignmentsOffset == old(assignmentsOffset) + [old(pos)]
      ensures assignments == old(assignments) + [digest]
      ensures pos == old(pos) + chunkLen && chunkcount == old(chunkcount) + 1
    {
      csum := csum + [Record(pos + chunkLen, digest)];
      assignmentsOffset := assignmentsOffset + [pos];
      assignments := assignments + [digest];
      pos := pos + chunkLen;
      chunkcount := chunkcount + 1;
    }

    method FlushPendingChunk()
      requires Valid()
      modifies this
      ensures Valid() && currentChunk == [] && fed == old(fed) && Extends(old(store), store)
    {
      hide Flatten, Indexed, Collisionless;
      if |currentChunk| == 0 { return; }
      var digest := hash.sha(currentChunk);
      KnownIsSame(hash, store, currentChunk);
      CommitChunk(digest, |currentChunk|, digest in known, currentChunk);
    }

    /** Every byte of `b` joins the stream, wherever the chunker cuts. */
    method HandleData(b: bytes)
      requires Valid()
      modifies this
      ensures Valid() && fed == old(fed) + b && Extends(old(store), store)
    {
      hide Flatten, Indexed, Collisionless, Honest;
      var rest := b;
      var cut := chunker.Scan(rest);
      while cut > 0
        invariant Valid() && cut <= |rest| && fed + rest == old(fed) + b && Extends(old(store), store)
        decreases |rest|
      {
        SplitAt(fed, rest, cut);
        TakeIn(rest[..cut]);
        var digest := hash.sha(currentChunk);
        KnownIsSame(hash, store, currentChunk);
        CommitChunk(digest, |currentChunk|, digest in known, currentChunk);
        rest := rest[cut..];
        cut := chunker.Scan(rest);
      }
      TakeIn(rest);
    }

    /** Bytes joining the pending chunk. */
    method TakeIn(part: bytes)
      requires Valid()
      modifies `currentChunk, `fed
      ensures Valid() && fed == old(fed) + part && currentChunk == old(currentChunk) + part
    {
      hide Flatten, Indexed, Collisionless, Honest;
      assert (Flatten(pieces) + currentChunk) + part == Flatten(pieces) + (currentChunk + part);
      currentChunk := currentChunk + part;
      fed := fed + part;
    }

    /**
     A list of cached chunks is replayed. The call trusts each entry to name a chunk of
     that length; given this, the stream grows by what the chunks contain. It fails only
     on an entry whose digest is not one.
     */
    method ReuseChunks(chunks: seq<FastChunk>) returns (ok: bool)
      requires Valid()
      requires forall ch <- chunks | !Skipped(ch) && hash.wellFormed(ch.digest) ::
        ch.digest in store && |store[ch.digest]| == ch.len
      modifies this
      ensures Valid() && Extends(old(store), store)
      ensures ok <==> forall ch <- chunks :: Skipped(ch) || hash.wellFormed(ch.digest)
      ensures ok ==> currentChunk == [] && fed == old(fed) + Replayed(old(store), chunks)
    {
      hide Flatten, Indexed, Collisionless, Honest, Replayed;
      FlushPendingChunk();
      ghost var flushed := store;
      EmptyReplayed(store, chunks);
      for i := 0 to |chunks|
        invariant Valid() && currentChunk == [] && store == flushed
        invariant forall ch <- chunks[..i] :: Skipped(ch) || hash.wellFormed(ch.digest)
        invariant fed == old(fed) + Replayed(store, chunks[..i])
      {
        var ch := chunks[i];
        assert ch in chunks && chunks[..i + 1] == chunks[..i] + [ch];
        if !Skipped(ch) {
          if !hash.wellFormed(ch.digest) { return false; }
          CommitChunk(ch.digest, ch.len, true, store[ch.digest]);
        }
        AppendReplayed(store, chunks, i);
      }
      assert chunks[..|chunks|] == chunks;
      ReplayedStable(old(store), store, chunks);
      return true;
    }

    /** Ends the stream: the assignments go out in batches of 128, then the index is closed. */
    method Eof() returns (index: seq<(Digest, nat)>, size: nat, count: nat)
      requires Valid()
      modifies this
      ensures Valid() && currentChunk == [] && fed == old(fed) && Extends(old(store), store)
      ensures |index| == |assignments| == count && size == pos == |fed|
      ensures forall i | 0 <= i < |index| :: index[i] == (assignments[i], assignmentsOffset[i])
    {
      hide Flatten, Collisionless, Honest, Describes;
      FlushPendingChunk();
      index := InBatches(assignments, assignmentsOffset);
      assert Flatten(pieces) + [] == Flatten(pieces);
      return index, pos, chunkcount;
    }
  }

  /** The assignments as the server receives them, 128 at a time. */
  method InBatches(digests: seq<Digest>, offsets: seq<nat>) returns (index: seq<(Digest, nat)>)
    requires |digests| == |offsets|
    ensures |index| == |digests| && forall i | 0 <= i < |index| :: index[i] == (digests[i], offsets[i])
  {
    index := [];
    var k := 0;
    while k < |digests|
      invariant 0 <= k && |index| == if k <= |digests| then k else |digests|
      invariant forall i | 0 <= i < |index| :: index[i] == (digests[i], offsets[i])
      decreases |digests| - k
    {
      var k2 := k + 128;
      if k2 > |digests| { k2 := |digests|; }
      ghost var before := index;
      index := index + seq(k2 - k, i requires 0 <= i < k2 - k => (digests[k + i], offsets[k + i]));
      assert forall i | 0 <= i < |before| :: index[i] == before[i];
      k := k + 128;
    }
  }

  lemma SplitAt(f: bytes, rest: bytes, cut: nat)
    requires cut <= |rest|
    ensures f + rest == (f + rest[..cut]) + rest[cut..]
  {
  }

  lemma EmptyReplayed(store: map<Digest, bytes>, chunks: seq<FastChunk>)
    ensures chunks[..0] == [] && Replayed(store, []) == []
  {
  }

  lemma AppendReplayed(store: map<Digest, bytes>, chunks: seq<FastChunk>, i: nat)
    requires i < |chunks| && forall ch <- chunks[..i + 1] :: Skipped(ch) || ch.digest in store
    ensures Replayed(store, chunks[..i + 1])
         == Replayed(store, chunks[..i]) + if Skipped(chunks[i]) then [] else store[chunks[i].digest]
  {
    var last := [chunks[i]];
    assert chunks[..i + 1] == chunks[..i] + last;
    ReplayedAppend(store, chunks[..i], last);
    assert Replayed(store, last) == (if Skipped(last[0]) then [] else store[last[0].digest]) + Replayed(store, []);
  }

  lemma PiecesGrow(records: seq<Record>, pieces: seq<bytes>, r: Record, piece: bytes)
    requires Describes(records, pieces) && piece != [] && r.offset == |Flatten(pieces)| + |piece|
    ensures Describes(records + [r], pieces + [piece])
    ensures Flatten(pieces + [piece]) == Flatten(pieces) + piece
  {
    FlattenOne(pieces, piece);
    forall i | 0 <= i < |pieces| + 1
      ensures (pieces + [piece])[i] != []
           && (records + [r])[i].offset == |Flatten((pieces + [piece])[..i + 1])|
    {
      if i < |pieces| {
        assert (pieces + [piece])[..i + 1] == pieces[..i + 1];
      } else {
        assert (pieces + [piece])[..i + 1] == pieces + [piece];
      }
    }
  }
}
