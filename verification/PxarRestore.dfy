/**
 A whole selective restore: chunks are fetched and fed one by one, the end is judged by what is pending, and the index
 recorded on the way is saved.
 */
module PxarRestore {
  import opened Bytes
  import opened PxarFormat
  import opened PxarStreamSpec
  import opened PxarRestoreTheorem
  import opened PxarRestoreExact
  import opened PxarPassIndex
  import opened ChunkLayout
  import PS = PxarStream

  /**
   `done` counts the restored targets, and `saved` is the index left for later restores; `Partial` is the source's
   "only some files" error. A chunk may be missing, or not end where its record says.
   */
  datatype Answer =
    | Complete(restored: map<nat, bytes>, done: nat, saved: map<bytes, FilePos>)
    | Partial(restored: map<nat, bytes>, done: nat)
    | Missing | Misplaced | Failing(error: Error) | Panics | Looping

  /** What a restore has to answer when its feeds came to this. */
  function AnswerOf(r: Result): Answer {
    match r
    case Quiet(q) => Judged(q.core)
    case QuietTorn(q) => Judged(q.core)
    case Done(q) => Complete(q.core.goal.restored, q.core.goal.done, q.core.index)
    case Failed(e) => Failing(e)
    case Panicked => Panics
    case Spins => Looping
  }

  function Judged(c: Core): Answer {
    if c.goal.pending > 0 then Partial(c.goal.restored, c.goal.done)
    else Complete(c.goal.restored, c.goal.done, c.index)
  }

  /** The chunks in order, as long as the server has them and they end where their records say. */
  function Arriving(records: seq<Record>, store: map<Digest, bytes>, from: nat): (chunks: seq<bytes>)
    ensures |chunks| <= |records|
    decreases |records|
  {
    if records == [] || records[0].digest !in store || from + |store[records[0].digest]| != records[0].offset then []
    else [store[records[0].digest]] + Arriving(records[1..], store, records[0].offset)
  }

  function AnswerTo(p: Parser, records: seq<Record>, store: map<Digest, bytes>, from: nat): Answer {
    var chunks := Arriving(records, store, from);
    var r := FeedAll(p, chunks);
    if |chunks| < |records| && (r.Quiet? || r.QuietTorn?)
    then (if records[|chunks|].digest in store then Misplaced else Missing)
    else AnswerOf(r)
  }

  lemma AnswerAtFirst(p: Parser, records: seq<Record>, store: map<Digest, bytes>, from: nat)
    requires records != []
    ensures var d := records[0].digest;
      AnswerTo(p, records, store, from)
      == if d !in store then Missing
         else if from + |store[d]| != records[0].offset then Misplaced
         else match Feed(p, store[d])
              case Quiet(q) => AnswerTo(q, records[1..], store, records[0].offset)
              case QuietTorn(q) => AnswerTo(q, records[1..], store, records[0].offset)
              case r => AnswerOf(r)
  {
    hide Feed;
    var d, chunks := records[0].digest, Arriving(records, store, from);
    if chunks != [] {
      var rest := Arriving(records[1..], store, records[0].offset);
      assert chunks == [store[d]] + rest && chunks[1..] == rest;
      if |rest| < |records| - 1 { assert records[1..][|rest|] == records[|chunks|]; }
    }
  }

  /** If the server has all the chunks of the archive, all of them arrive. */
  lemma {:induction false} AllArrive(records: seq<Record>, chunks: seq<bytes>, store: map<Digest, bytes>, i: nat)
    requires Describes(records, chunks) && i <= |records|
    requires forall j | 0 <= j < |records| :: records[j].digest in store && store[records[j].digest] == chunks[j]
    ensures Arriving(records[i..], store, |Flatten(chunks[..i])|) == chunks[i..]
    decreases |records| - i
  {
    hide Flatten;
    if i < |records| {
      PrefixBytes(chunks, i);
      AllArrive(records, chunks, store, i + 1);
      assert records[i..][0] == records[i] && records[i..][1..] == records[i + 1..];
      assert chunks[i..] == [chunks[i]] + chunks[i + 1..];
    }
  }

  /** A feed that did not finish the restore has not got everything yet. */
  lemma {:induction false} QuietIsNotDone(p: Parser)
    requires !AllDone(p.core) && !p.core.indexMode
    ensures var r := Drain(p);
      (r.Quiet? || r.QuietTorn?) ==> !AllDone(r.p.core) && !r.p.core.indexMode
    decreases |p.carry|, Rank(p.core.walk)
  {
    hide Step;
    var o := Step(p);
    StepKeepsMode(p);
    if o.Moved? && !AllDone(o.p.core) && Progress(p, o.p) {
      QuietIsNotDone(o.p);
    }
  }

  lemma StepKeepsMode(p: Parser)
    ensures var o := Step(p);
      && (o.Moved? || o.Wait? || o.Torn? ==> o.p.core.indexMode == p.core.indexMode)
      && (o.Wait? || o.Torn? ==> o.p.core.goal == p.core.goal)
  {
    hide StepFilename, StepPayload, StepRootEntry, StepGoodbye;
    FilenameKeepsMode(p);
    PayloadKeepsMode(p);
    BlocksKeepMode(p);
  }

  predicate KeepsMode(p: Parser, o: Outcome) {
    && (o.Moved? || o.Wait? || o.Torn? ==> o.p.core.indexMode == p.core.indexMode)
    && (o.Wait? || o.Torn? ==> o.p.core.goal == p.core.goal)
  }

  lemma FilenameKeepsMode(p: Parser)
    ensures KeepsMode(p, StepFilename(p))
  {
    hide FromLE, RecordPayload, CurrentPath, InSkip, DirRelevant, LookupTarget, IsDirMode;
  }

  lemma PayloadKeepsMode(p: Parser)
    ensures KeepsMode(p, StepPayload(p))
  {
    hide FinishEntry, MarkDone;
  }

  lemma BlocksKeepMode(p: Parser)
    ensures KeepsMode(p, StepRootEntry(p)) && KeepsMode(p, StepGoodbye(p))
  {
    hide FromLE;
  }

  method StreamRestore(wanted: seq<Target>, records: seq<Record>, store: map<Digest, bytes>) returns (r: Answer)
    requires AllTargets(wanted) && wanted != []
    ensures r == AnswerTo(Parser(Restorer(wanted, true), []), records, store, 0)
  {
    hide Feed, Drain, TargetMap, AnswerTo, AnswerOf;
    var parser := new PS.PxarStreamParser(wanted, false, true);
    ghost var start := parser.View();
    var downloaded: nat := 0;
    assert records[0..] == records;
    for i := 0 to |records|
      invariant fresh(parser)
      invariant AnswerTo(parser.View(), records[i..], store, downloaded) == AnswerTo(start, records, store, 0)
      invariant !AllDone(parser.CoreView()) && !parser.indexMode
    {
      assert records[i..][0] == records[i] && records[i..][1..] == records[i + 1..];
      ghost var before := parser.View();
      AnswerAtFirst(before, records[i..], store, downloaded);
      if records[i].digest !in store { return Missing; }
      var chunk := store[records[i].digest];
      if downloaded + |chunk| != records[i].offset { return Misplaced; }
      QuietAfterFeed(before, chunk);
      var fed := parser.FeedChunk(chunk);
      AnswerOfFeed(before, chunk);
      match fed {
        case Err(e) => return Failing(e);
        case Panics => return Panics;
        case Looping => return Looping;
        case Ok(allDone) =>
          if allDone { return Complete(parser.goal.restored, parser.goal.done, parser.index); }
      }
      downloaded := records[i].offset;
    }
    AnswerAtEnd(parser.View(), store, downloaded);
    var complete, done := parser.Finish();
    return if complete then Complete(parser.goal.restored, done, parser.index) else Partial(parser.goal.restored, done);
  }

  lemma AnswerAtEnd(p: Parser, store: map<Digest, bytes>, from: nat)
    ensures AnswerTo(p, [], store, from) == Judged(p.core)
  {
  }

  lemma AnswerOfFeed(p: Parser, chunk: bytes)
    ensures match Feed(p, chunk)
            case Quiet(_) => true
            case QuietTorn(_) => true
            case Done(q) =>
              AnswerOf(Feed(p, chunk)) == Complete(q.core.goal.restored, q.core.goal.done, q.core.index)
            case Failed(e) => AnswerOf(Feed(p, chunk)) == Failing(e)
            case Panicked => AnswerOf(Feed(p, chunk)) == Panics
            case Spins => AnswerOf(Feed(p, chunk)) == Looping
  {
    hide Feed;
  }

  lemma QuietAfterFeed(p: Parser, chunk: bytes)
    requires !AllDone(p.core) && !p.core.indexMode
    ensures var r := Feed(p, chunk); (r.Quiet? || r.QuietTorn?) ==> !AllDone(r.p.core) && !r.p.core.indexMode
    ensures Feed(p, chunk).Done? ==> AllDone(Feed(p, chunk).p.core)
  {
    hide Step;
    QuietIsNotDone(Append(p, chunk));
    DoneIsDone(Append(p, chunk));
  }

  lemma {:induction false} DoneIsDone(p: Parser)
    ensures Drain(p).Done? ==> AllDone(Drain(p).p.core)
    decreases |p.carry|, Rank(p.core.walk)
  {
    hide Step;
    var o := Step(p);
    if o.Moved? && !AllDone(o.p.core) && Progress(p, o.p) {
      DoneIsDone(o.p);
    }
  }

  /**
   The call as a whole, where the server has all chunks of an archive: it fails exactly if a chunk ends in a header
   window too soon; else it completes exactly if every target has a match, and in either case each target has received
   its first match and nothing else. The index it saves leads to files of the archive.
   */
  lemma StreamRestoreIsExact(a: Archive, wanted: seq<Target>, records: seq<Record>, chunks: seq<bytes>,
                             store: map<Digest, bytes>)
    requires WellFormedArchive(a) && |EncodeArchive(a)| <= MAX_INT && Flatten(chunks) == EncodeArchive(a)
    requires GoodRequest(wanted) && wanted != [] && Plain(ArchiveFiles(a)) && Describes(records, chunks)
    requires forall i | 0 <= i < |records| :: records[i].digest in store && store[records[i].digest] == chunks[i]
    ensures var r, files := AnswerTo(Parser(Restorer(wanted, true), []), records, store, 0), ArchiveFiles(a);
      && (TornTooSoon(files, wanted, chunks) <==> r == Failing(UnexpectedDirBlock))
      && (!TornTooSoon(files, wanted, chunks) ==> r.Complete? || r.Partial?)
      && (r.Complete? || r.Partial? ==>
            (r.Complete? <==> AllServed(files, wanted, |EncodeArchive(a)|)) && Delivered(files, wanted, r.restored))
      && (r.Complete? ==> LeadsToFiles(r.saved, files, wanted))
  {
    hide FeedAll, EncodeArchive, WellFormedArchive, ArchiveFiles, Plain, TornTooSoon, AllServed, Delivered, TargetMap,
         Flatten, LeadsToFiles, Arriving;
    AllArrive(records, chunks, store, 0);
    assert records[0..] == records && chunks[0..] == chunks;
    assert |Flatten(chunks[..0])| == 0 by { NoBytes(chunks); }
    RestoreIsExact(a, wanted, true, chunks);
    PassIndexIsExact(a, wanted, chunks);
  }

  lemma NoBytes(chunks: seq<bytes>)
    ensures |Flatten(chunks[..0])| == 0
  {
  }

  /** What the saved index says of a file, its data's block bears out. */
  lemma SavedPositionsHold(a: Archive, wanted: seq<Target>, saved: map<bytes, FilePos>, k: bytes)
    requires LeadsToFiles(saved, ArchiveFiles(a), wanted) && k in saved
    ensures exists f <- ArchiveFiles(a) ::
      KeyFor(k, f, wanted) && saved[k].size == |f.data| && At(EncodeArchive(a), saved[k].offset, Block(PAYLOAD, f.data))
  {
    hide ArchiveFiles, EncodeArchive, KeyFor, Block;
    var f :| f in ArchiveFiles(a) && saved[k] == FilePos(f.pos.offset, f.pos.size, 0, 0) && KeyFor(k, f, wanted);
    ArchiveFileIsWhereItSays(a, f);
  }
}
