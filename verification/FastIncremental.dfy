/** The cache of per-file spans: what may be replayed instead of reading the file again. */
module FastIncremental {
  import opened Bytes
  import opened Options
  import opened ChunkLayout
  import opened ChunkStream
  import opened ChunkSpans

  datatype Stat = Stat(size: int, mtime: int, aclHash: bytes)

  datatype FileRecord = FileRecord(size: int, pxarLen: int, mtime: int, aclHash: bytes, spans: seq<Span>)

  const NS: int := 1_000_000_000

  /** Go's integer division by 10^9, towards zero. */
  function Seconds(ns: int): int {
    if ns >= 0 then ns / NS else -(-ns / NS)
  }

  predicate MtimeMatches(stored: int, stat: int) {
    stored == stat || Seconds(stored) == Seconds(stat)
  }

  /** The assumption behind both caches: path, size and mtime in whole seconds settle the bytes of a file. */
  type Oracle = (bytes, int, int) -> bytes

  function WantedLen(rec: FileRecord): int {
    if rec.pxarLen == 0 then rec.size else rec.pxarLen
  }

  /** The record has spans, and they are as long as the file's payload should be. */
  predicate CoversFile(rec: FileRecord) {
    rec.spans != [] && TotalLen(rec.spans) == WantedLen(rec)
  }

  /** `canReuse` for the record found under the file's key. */
  predicate Accepts(rec: FileRecord, st: Stat) {
    && rec.size == st.size
    && (rec.mtime == 0 || MtimeMatches(rec.mtime, st.mtime))
    && rec.spans != [] && TotalLen(rec.spans) == WantedLen(rec)
    && (st.aclHash == [] || rec.aclHash == [] || rec.aclHash == st.aclHash)
  }

  function CanReuse(files: map<bytes, FileRecord>, key: bytes, st: Stat): Option<FileRecord> {
    if key in files && Accepts(files[key], st) then Some(files[key]) else None
  }

  function FastChunks(spans: seq<Span>): (chunks: seq<FastChunk>)
    ensures |chunks| == |spans|
  {
    seq(|spans|, i requires 0 <= i < |spans| => FastChunk(spans[i].digest, spans[i].len))
  }

  // What makes the cache sound.

  /** The part of the reuse test that does not look at the file. */
  predicate Replayable(rec: FileRecord) {
    SpansReusable(rec.spans) && TotalLen(rec.spans) == WantedLen(rec)
  }

  /** Whole chunks which, joined, are these bytes. */
  ghost predicate SpansGive(spans: seq<Span>, store: map<Digest, bytes>, body: bytes) {
    && (forall sp <- spans :: sp.digest in store && |store[sp.digest]| == sp.len)
    && Contents(spans, store) == body
  }

  /** Every record that could ever be accepted replays the bytes it was recorded for. */
  ghost predicate Sound(files: map<bytes, FileRecord>, origin: map<bytes, bytes>, store: map<Digest, bytes>) {
    forall k <- files :: k in origin && (Replayable(files[k]) ==> SpansGive(files[k].spans, store, origin[k]))
  }

  lemma {:induction false} ContentsStable(spans: seq<Span>, small: map<Digest, bytes>, big: map<Digest, bytes>)
    requires Extends(small, big) && forall sp <- spans :: sp.digest in small
    ensures Contents(spans, big) == Contents(spans, small)
  {
    if spans != [] {
      ContentsStable(spans[1..], small, big);
    }
  }

  lemma SoundInLargerStore(files: map<bytes, FileRecord>, origin: map<bytes, bytes>,
                           small: map<Digest, bytes>, big: map<Digest, bytes>)
    requires Sound(files, origin, small) && Extends(small, big)
    ensures Sound(files, origin, big)
  {
    hide Contents, TotalLen;
    forall k <- files | Replayable(files[k])
      ensures SpansGive(files[k].spans, big, origin[k])
    {
      ContentsStable(files[k].spans, small, big);
    }
  }

  lemma {:induction false} ReplayedIsContents(spans: seq<Span>, store: map<Digest, bytes>)
    requires SpansReusable(spans) || spans == []
    requires forall sp <- spans :: sp.digest in store
    ensures forall ch <- FastChunks(spans) :: !Skipped(ch) && ch.digest in store
    ensures Replayed(store, FastChunks(spans)) == Contents(spans, store)
    decreases |spans|
  {
    if spans != [] {
      ReplayedIsContents(spans[1..], store);
      assert FastChunks(spans)[1..] == FastChunks(spans[1..]);
    }
  }

  /**
   A record written while the stream grows: if the reuse test would let it through,
   its spans cover the whole range although only committed chunks were looked at.
   */
  lemma RecordedIsSound(csum: seq<Record>, pieces: seq<bytes>, store: map<Digest, bytes>, pending: bytes,
                        start: nat, end: nat, rec: FileRecord)
    requires Describes(csum, pieces)
    requires forall i | 0 <= i < |csum| :: csum[i].digest in store && store[csum[i].digest] == pieces[i]
    requires start < end <= |Flatten(pieces) + pending|
    requires rec.spans == Cut(RecordStretches(csum), start, end) && rec.pxarLen == end - start
    requires Replayable(rec)
    ensures end <= |Flatten(pieces)|
    ensures SpansGive(rec.spans, store, (Flatten(pieces) + pending)[start..end])
  {
    hide Flatten, Cut, TotalLen, Contents, Laid;
    StretchesAreLaid(csum, pieces, 0);
    assert RecordStretches(csum)[0..] == RecordStretches(csum) && pieces[0..] == pieces;
    assert Flatten(pieces[..0]) == [] by { assert pieces[..0] == []; EmptyPieces(pieces[..0]); }
    WholeSpansHold(RecordStretches(csum), pieces, 0, start, end, store);
    var s := Flatten(pieces);
    assert (s + pending)[start..end] == s[start..end];
  }

  class FastIncremental {
    var prev: map<bytes, FileRecord>
    var live: map<bytes, FileRecord>
    const reuseEnabled: bool
    /** The bytes each record was made from. */
    ghost var prevOrigin: map<bytes, bytes>
    ghost var liveOrigin: map<bytes, bytes>

    ghost predicate IsSound(store: map<Digest, bytes>)
      reads this
    {
      Sound(prev, prevOrigin, store) && Sound(live, liveOrigin, store)
    }

    constructor (disk: map<bytes, FileRecord>, ghost origin: map<bytes, bytes>, ready: bool, forceFull: bool)
      ensures prev == (if forceFull then map[] else disk) && prevOrigin == origin
      ensures live == map[] && liveOrigin == map[]
      ensures reuseEnabled <==> !forceFull && disk != map[] && ready
    {
      prev := if forceFull then map[] else disk;
      live, liveOrigin, prevOrigin := map[], map[], origin;
      reuseEnabled := !forceFull && disk != map[] && ready;
    }

    /** The chunks to replay for a file, if its record is accepted; the record is carried over. */
    method ReuseChunkSpans(key: bytes, st: Stat) returns (r: Option<seq<FastChunk>>)
      modifies `live, `liveOrigin
      ensures r.Some? <==> reuseEnabled && CanReuse(prev, key, st).Some? && SpansReusable(prev[key].spans)
      ensures r.Some? ==> r.value == FastChunks(prev[key].spans) && live == old(live)[key := prev[key]]
      ensures r.None? ==> live == old(live) && liveOrigin == old(liveOrigin)
      ensures r.Some? && key in prevOrigin ==> liveOrigin == old(liveOrigin)[key := prevOrigin[key]]
      ensures r.Some? && key !in prevOrigin ==> liveOrigin == old(liveOrigin)
    {
      if !reuseEnabled { return None; }
      var rec := CanReuse(prev, key, st);
      if rec.None? || !SpansReusable(rec.value.spans) { return None; }
      live := live[key := rec.value];
      if key in prevOrigin { liveOrigin := liveOrigin[key := prevOrigin[key]]; }
      var out, i := [], 0;
      while i < |rec.value.spans|
        invariant 0 <= i <= |rec.value.spans| && out == FastChunks(rec.value.spans)[..i]
      {
        out := out + [FastChunk(rec.value.spans[i].digest, rec.value.spans[i].len)];
        i := i + 1;
      }
      return Some(out);
    }

    method RecordFile(key: bytes, st: Stat, spans: seq<Span>, pxarLen: int, ghost body: bytes)
      modifies `live, `liveOrigin
      ensures if spans == [] || key in old(live) then live == old(live) && liveOrigin == old(liveOrigin)
              else live == old(live)[key := FileRecord(st.size, pxarLen, st.mtime, st.aclHash, spans)]
                   && liveOrigin == old(liveOrigin)[key := body]
    {
      if |spans| == 0 { return; }
      if key in live { return; }
      live := live[key := FileRecord(st.size, pxarLen, st.mtime, st.aclHash, spans)];
      liveOrigin := liveOrigin[key := body];
    }

    /** What the index file holds after the run; a run that recorded nothing leaves it alone. */
    method Save(disk: map<bytes, FileRecord>, ready: bool) returns (saved: map<bytes, FileRecord>, nowReady: bool)
      ensures saved == (if live == map[] then disk else live)
      ensures nowReady == (ready || live != map[])
    {
      if |live| == 0 { return disk, ready; }
      return live, true;
    }
  }

  /** An accepted lookup replays exactly what was recorded and passes it on. */
  lemma AcceptedIsSound(fi: FastIncremental, key: bytes, st: Stat, store: map<Digest, bytes>)
    requires fi.IsSound(store) && CanReuse(fi.prev, key, st).Some? && SpansReusable(fi.prev[key].spans)
    ensures key in fi.prevOrigin && SpansGive(fi.prev[key].spans, store, fi.prevOrigin[key])
    ensures forall ch <- FastChunks(fi.prev[key].spans) :: ch.digest in store && |store[ch.digest]| == ch.len
    ensures Replayed(store, FastChunks(fi.prev[key].spans)) == fi.prevOrigin[key]
    ensures Sound(fi.live[key := fi.prev[key]], fi.liveOrigin[key := fi.prevOrigin[key]], store)
  {
    hide Contents, TotalLen, Replayed;
    ReplayedIsContents(fi.prev[key].spans, store);
  }

  // Refreshing the cache from the disk.

  /** `enrichIndexFromDisk` for one file: new stat, and no spans if it disagrees with the old. */
  function Enriched(rec: FileRecord, size: int, mtime: int): FileRecord {
    (if rec.size != size || !MtimeMatches(rec.mtime, mtime) then rec.(spans := []) else rec)
      .(size := size, mtime := mtime)
  }

  datatype Walked = Walked(key: bytes, size: int, mtime: int)

  function EnrichAll(files: map<bytes, FileRecord>, walk: seq<Walked>): (r: map<bytes, FileRecord>)
    ensures r.Keys == files.Keys
  {
    if walk == [] then files else
      var w := walk[0];
      EnrichAll(if w.key in files then files[w.key := Enriched(files[w.key], w.size, w.mtime)] else files, walk[1..])
  }

  method EnrichIndexFromDisk(files: map<bytes, FileRecord>, walk: seq<Walked>)
    returns (r: map<bytes, FileRecord>, updated: nat)
    ensures r == EnrichAll(files, walk)
    ensures updated <= |walk|
  {
    r, updated := files, 0;
    var rest := walk;
    while rest != []
      invariant EnrichAll(r, rest) == EnrichAll(files, walk) && updated + |rest| <= |walk|
      decreases |rest|
    {
      var w := rest[0];
      if w.key in r {
        var rec := r[w.key];
        if rec.size != w.size || !MtimeMatches(rec.mtime, w.mtime) { rec := rec.(spans := []); }
        rec := rec.(size := w.size, mtime := w.mtime);
        r := r[w.key := rec];
        updated := updated + 1;
      }
      rest := rest[1..];
    }
  }

  /** For the stat it was refreshed with, a record is accepted afterwards iff it was and the times agree. */
  lemma EnrichedForSameStat(rec: FileRecord, st: Stat)
    ensures Accepts(Enriched(rec, st.size, st.mtime), st) <==> Accepts(rec, st) && MtimeMatches(rec.mtime, st.mtime)
  {
    hide TotalLen, Seconds;
    assert TotalLen([]) == 0 by { EmptyTotal(); }
  }

  lemma EmptyTotal()
    ensures TotalLen([]) == 0
  {
  }

  /** A nonzero mtime from the disk lets nothing through that was not let through before. */
  lemma NonzeroMtimeRemembers(rec: FileRecord, size: int, mtime: int, st: Stat)
    requires mtime != 0
    ensures Accepts(Enriched(rec, size, mtime), st) ==> Accepts(rec, st)
  {
    hide TotalLen;
  }

  /**
   Refreshing lets some stat through that the old record refused exactly when the disk's mtime is 0, which is taken
   for "unknown" from then on, while the record's own lies within a second of it without being 0, the sizes agree,
   and the spans cover the file.
   */
  lemma EnrichedForLaterStat(rec: FileRecord, size: int, mtime: int)
    ensures (forall st: Stat :: Accepts(Enriched(rec, size, mtime), st) ==> Accepts(rec, st))
      <==> (mtime != 0 || rec.mtime == 0 || rec.size != size || Seconds(rec.mtime) != 0
            || rec.spans == [] || TotalLen(rec.spans) != WantedLen(rec))
  {
    hide TotalLen;
    if mtime != 0 {
      forall st: Stat ensures Accepts(Enriched(rec, size, mtime), st) ==> Accepts(rec, st) {
        NonzeroMtimeRemembers(rec, size, mtime, st);
      }
    } else {
      var stranger := Stat(size, 7 * NS, []);
      assert !MtimeMatches(rec.mtime, 7 * NS) || Seconds(rec.mtime) == 7;
      assert Accepts(Enriched(rec, size, 0), stranger) || rec.size != size || !MtimeMatches(rec.mtime, 0)
        || rec.spans == [] || TotalLen(rec.spans) != WantedLen(rec);
    }
  }

  /** With an mtime of 0 it can: the zero is taken for "unknown" from then on. */
  lemma ZeroMtimeForgets()
    ensures exists rec: FileRecord, st: Stat ::
      !Accepts(rec, st) && Accepts(Enriched(rec, st.size, 0), st)
  {
    var rec := FileRecord(1, 1, 5, [], [Span([1], 1, false)]);
    var st := Stat(1, 7 * NS, []);
    assert TotalLen(rec.spans[1..]) == 0;
    assert TotalLen(rec.spans) == 1;
    assert Accepts(Enriched(rec, st.size, 0), st);
    assert !Accepts(rec, st);
  }

  /** A refreshed cache is as sound as it was. */
  lemma {:induction false} EnrichKeepsSound(files: map<bytes, FileRecord>, walk: seq<Walked>,
                                            origin: map<bytes, bytes>, store: map<Digest, bytes>)
    requires Sound(files, origin, store)
    ensures Sound(EnrichAll(files, walk), origin, store)
    decreases |walk|
  {
    hide Contents, TotalLen, MtimeMatches;
    if walk != [] {
      var w := walk[0];
      EnrichKeepsSound(if w.key in files then files[w.key := Enriched(files[w.key], w.size, w.mtime)] else files,
                       walk[1..], origin, store);
    }
  }
}
