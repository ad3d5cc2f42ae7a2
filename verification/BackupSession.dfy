/**
 The callbacks of one PBS backup: bytes that are written go to the chunk stream and to the index recorder alike.
 Of a replayed file, the chunk stream gets the headers and the cached chunks, the recorder the headers and as many
 bytes more as they announce.
 */
module BackupSession {
  import opened Bytes
  import opened ChunkLayout
  import opened ChunkStream
  import opened ChunkSpans
  import opened FI = FastIncremental
  import opened RecordCuts
  import opened PxarStreamSpec
  import opened PxarSplit
  import opened PxarAdvance
  import PS = PxarStream

  function VirtualLen(chunks: seq<FastChunk>): nat {
    if chunks == [] then 0 else (if chunks[0].len > 0 then chunks[0].len else 0) + VirtualLen(chunks[1..])
  }

  /** Every entry that counts names a chunk of its length. */
  predicate Proper(hash: Hash, store: map<Digest, bytes>, chunks: seq<FastChunk>) {
    forall ch <- chunks :: ch.len <= 0
      || (ch.digest != [] && hash.wellFormed(ch.digest) && ch.digest in store && |store[ch.digest]| == ch.len)
  }

  lemma {:induction false} VirtualIsReplayed(hash: Hash, store: map<Digest, bytes>, chunks: seq<FastChunk>)
    requires Proper(hash, store, chunks)
    ensures forall ch <- chunks :: Skipped(ch) || ch.digest in store
    ensures VirtualLen(chunks) == |Replayed(store, chunks)|
  {
    if chunks != [] {
      VirtualIsReplayed(hash, store, chunks[1..]);
      assert chunks[0] in chunks;
    }
  }

  /** The recorder's state is what one feed of all these bytes would have left. */
  ghost predicate Follows(p: Parser, stream: bytes) {
    Drain(Parser(Recorder(), stream)) == Quiet(p)
  }

  /** The stream so far is one the recorder can rest after. */
  ghost predicate Restful(stream: bytes) {
    Drain(Parser(Recorder(), stream)).Quiet?
  }

  lemma FollowOn(p: Parser, stream: bytes, b: bytes)
    requires Follows(p, stream)
    ensures Feed(p, b) == Drain(Parser(Recorder(), stream + b))
    ensures p.core.streamOff + |p.carry| == |stream| && p.core.indexMode
  {
    hide Drain, Step;
    DrainSplit(Parser(Recorder(), stream), b);
    DrainConserves(Parser(Recorder(), stream));
  }

  /** A skipped payload is followed as if its bytes had been fed. */
  lemma FollowReuse(p: Parser, stream: bytes, payload: bytes)
    requires Follows(p, stream)
    requires if p.core.walk == SkipPayload then |payload| == p.core.payload.remain else payload == []
    ensures Follows(AdvanceSkipPayload(p), stream + payload)
  {
    hide Drain, Step;
    FollowOn(p, stream, payload);
    if p.core.walk == SkipPayload {
      QuietInPayload(Parser(Recorder(), stream));
      AdvanceIsFeeding(p, payload);
    } else {
      assert stream + payload == stream;
    }
  }

  /** Having got this far, the recorder waits for as many bytes as the payload has. */
  predicate Announces(start: Result, payload: bytes) {
    start.Quiet? &&
    if start.p.core.walk == SkipPayload then |payload| == start.p.core.payload.remain else payload == []
  }

  class Session {
    const chunk: ChunkState
    const recorder: PS.PxarStreamParser
    const fi: FastIncremental
    var pxarStreamBytes: nat
    var filePxarStart: nat
    var streamErr: bool
    /** The archive the recorder has been following, which the chunk stream may differ from. */
    ghost var seen: bytes

    ghost predicate Valid()
      reads this, chunk, recorder, fi
    {
      chunk.Valid() && fi.IsSound(chunk.store)
    }

    /** The byte counter is that of the chunk stream, and the recorder has followed the archive so far. */
    ghost predicate InStep()
      reads this, chunk, recorder, fi
    {
      && Valid() && !streamErr
      && pxarStreamBytes == |chunk.fed| && filePxarStart <= pxarStreamBytes
      && Follows(recorder.View(), seen)
    }

    /** The counters of the stream agree with each other; with the recorder's exactly if it saw as many bytes. */
    lemma CountersAgree()
      requires InStep()
      ensures pxarStreamBytes == chunk.pos + |chunk.currentChunk| == |chunk.fed|
      ensures recorder.streamOff + |recorder.carry| == |seen|
      ensures pxarStreamBytes == recorder.streamOff + |recorder.carry| <==> |chunk.fed| == |seen|
    {
      hide Drain;
      FollowOn(recorder.View(), seen, []);
    }

    constructor (hash: Hash, store: map<Digest, bytes>, known: set<Digest>, fi: FastIncremental)
      requires Collisionless(hash) && Honest(hash, store) && known <= store.Keys && fi.IsSound(store)
      ensures InStep() && this.fi == fi && chunk.hash == hash && chunk.store == store && chunk.fed == seen == []
      ensures fresh(chunk) && fresh(recorder)
    {
      this.fi := fi;
      chunk := new ChunkState(hash, store, known);
      recorder := new PS.PxarStreamParser([], true, false);
      pxarStreamBytes, filePxarStart, streamErr, seen := 0, 0, false, [];
      new;
      hide Step;
      StartsQuiet();
    }

    /** Bytes from the writer, in pieces of any size. */
    method WriteCB(b: bytes)
      requires InStep()
      modifies this, chunk, recorder
      ensures Valid() && Extends(old(chunk.store), chunk.store) && filePxarStart == old(filePxarStart)
      ensures Restful(old(seen) + b) ==> InStep() && chunk.fed == old(chunk.fed) + b && seen == old(seen) + b
    {
      hide Drain, Indexed, Flatten, Collisionless, Honest, Sound;
      FollowOn(recorder.View(), seen, b);
      pxarStreamBytes := pxarStreamBytes + |b|;
      var r := recorder.FeedChunk(b);
      if !r.Ok? { streamErr := true; return; }
      chunk.HandleData(b);
      seen := seen + b;
      CarrySound(old(chunk.store));
    }

    /** The cache stays sound while the store grows. */
    lemma CarrySound(before: map<Digest, bytes>)
      requires fi.IsSound(before) && Extends(before, chunk.store)
      ensures fi.IsSound(chunk.store)
    {
      SoundInLargerStore(fi.prev, fi.prevOrigin, before, chunk.store);
      SoundInLargerStore(fi.live, fi.liveOrigin, before, chunk.store);
    }

    /** A file's headers, and cached chunks in place of the payload they announce. */
    method OnPxarChunksReuse(header: bytes, chunks: seq<FastChunk>, ghost payload: bytes)
      requires InStep()
      requires forall ch <- chunks | !Skipped(ch) && chunk.hash.wellFormed(ch.digest) ::
        ch.digest in chunk.store && |chunk.store[ch.digest]| == ch.len
      modifies this, chunk, recorder
      ensures Valid() && Extends(old(chunk.store), chunk.store) && filePxarStart == old(filePxarStart)
      ensures Proper(chunk.hash, old(chunk.store), chunks) ==>
        forall ch <- chunks :: Skipped(ch) || ch.digest in old(chunk.store)
      ensures Proper(chunk.hash, old(chunk.store), chunks) ==>
        var start := Drain(Parser(Recorder(), old(seen) + header));
        Announces(start, payload) ==>
          && InStep() && chunk.fed == old(chunk.fed) + header + Replayed(old(chunk.store), chunks)
          && seen == old(seen) + header + payload
    {
      hide Drain, Indexed, Flatten, Collisionless, Honest, Sound, Replayed, Feed, VirtualLen;
      ghost var stream := seen;
      ghost var store := chunk.store;
      FollowOn(recorder.View(), stream, header);
      ghost var proper := Proper(chunk.hash, store, chunks);
      if proper { VirtualIsReplayed(chunk.hash, store, chunks); }
      pxarStreamBytes := pxarStreamBytes + |header| + VirtualLen(chunks);
      var r := recorder.FeedHeadersThenSkipPayload(header);
      if !r.Ok? { streamErr := true; return; }
      chunk.HandleData(header);
      if proper { ReplayedStable(store, chunk.store, chunks); }
      var ok := chunk.ReuseChunks(chunks);
      CarrySound(store);
      if !ok { streamErr := true; return; }
      seen := seen + header + payload;
      var start := Drain(Parser(Recorder(), stream + header));
      if proper && Announces(start, payload) { FollowReuse(start.p, stream + header, payload); }
    }

    /** The file is the one new entry of the live cache, filed with its stat and its bytes. */
    ghost predicate Recorded(live: map<bytes, FileRecord>, origin: map<bytes, bytes>, key: bytes, st: Stat)
      requires filePxarStart <= |chunk.fed|
      reads this, chunk, fi
    {
      && key !in live && key in fi.live
      && fi.live == live[key := fi.live[key]] && fi.live[key].size == st.size && fi.live[key].mtime == st.mtime
      && fi.live[key].pxarLen == |chunk.fed| - filePxarStart
      && fi.liveOrigin == origin[key := chunk.fed[filePxarStart..]]
    }

    method OnFilePxarBegin()
      requires InStep()
      modifies this`filePxarStart
      ensures InStep() && filePxarStart == pxarStreamBytes
    {
      filePxarStart := pxarStreamBytes;
    }

    /**
     The file just written is recorded with the spans its bytes ended up in. The record can be replayed exactly if by
     now a chunk ends where the marked range starts and one where it ends.
     */
    method OnFilePxarEnd(key: bytes, st: Stat)
      requires InStep()
      modifies fi`live, fi`liveOrigin
      ensures InStep()
      ensures (fi.live == old(fi.live) && fi.liveOrigin == old(fi.liveOrigin))
              || Recorded(old(fi.live), old(fi.liveOrigin), key, st)
      ensures key in fi.live && key !in old(fi.live) ==>
        (Replayable(fi.live[key]) <==> AtChunkEnd(chunk.csum, filePxarStart) && AtChunkEnd(chunk.csum, pxarStreamBytes))
    {
      hide Drain, Flatten, Collisionless, Honest, Contents, TotalLen, Cut, AtChunkEnd, SpansReusable;
      var spans := ChunkSpansFromAssignments(chunk.assignments, chunk.assignmentsOffset, chunk.pos,
                                             filePxarStart, pxarStreamBytes);
      ghost var body := chunk.fed[filePxarStart..];
      ghost var rec := FileRecord(st.size, pxarStreamBytes - filePxarStart, st.mtime, st.aclHash, spans);
      BothFormsAgree(chunk.csum, chunk.pieces, chunk.assignments, chunk.assignmentsOffset);
      DigestsAreGiven(chunk.hash, chunk.store, chunk.csum);
      if filePxarStart < pxarStreamBytes {
        ReplayableAtChunkEnds(chunk.csum, chunk.pieces, filePxarStart, pxarStreamBytes, rec);
      }
      if spans != [] && Replayable(rec) {
        RecordedIsSound(chunk.csum, chunk.pieces, chunk.store, chunk.currentChunk, filePxarStart, pxarStreamBytes, rec);
      }
      fi.RecordFile(key, st, spans, pxarStreamBytes - filePxarStart, body);
    }
  }

  lemma StartsQuiet()
    ensures Drain(Parser(Recorder(), [])) == Quiet(Parser(Recorder(), []))
    ensures Restorer([], false).(indexMode := true) == Recorder()
  {
    assert TargetMap([]) == map[];
  }
}
