/**
 The push parser as the object it is: fields updated in place by each step of
 the `feed` loop. Every method is tied to the step function it carries out.
 */
module PxarStream {
  import opened Bytes
  import opened PxarFormat
  import opened Paths
  import opened PxarStreamSpec

  /** What a step reports to the loop: `progressed`, or the end of the feed. */
  datatype Signal = Stopped | Progressed | Failing(error: Error) | Panicking

  class PxarStreamParser {
    const indexMode: bool
    const recordIndex: bool
    var carry: bytes
    var walk: Walk
    var streamOff: nat
    var pathStack: seq<Frame>
    var payload: Payload
    var entry: PendingEntry
    var index: map<bytes, FilePos>
    var goal: Goal

    ghost function CoreView(): Core
      reads this
    {
      Core(indexMode, recordIndex, walk, streamOff, pathStack, payload, entry, index, goal)
    }

    ghost function View(): Parser
      reads this
    {
      Parser(CoreView(), carry)
    }

    constructor (wanted: seq<Target>, indexing: bool, recording: bool)
      requires forall t <- wanted :: t.Target?
      ensures View() == Parser(Restorer(wanted, recording).(indexMode := indexing), [])
    {
      indexMode, recordIndex, carry, walk, streamOff := indexing, recording, [], RootEntry, 0;
      pathStack, payload, entry, index := [], NO_PAYLOAD, PendingEntry(0, []), map[];
      var m := KeyTargets(wanted);
      goal := Goal(m, map[], |wanted|, 0);
    }

    static method KeyTargets(wanted: seq<Target>) returns (m: map<bytes, Target>)
      requires forall t <- wanted :: t.Target?
      ensures m == TargetMap(wanted)
    {
      m := map[];
      for i := 0 to |wanted|
        invariant m == TargetMap(wanted[..i])
      {
        m := PutAll(m, TargetPathKeys(wanted[i].filePath), wanted[i]);
        assert wanted[..i + 1][..i] == wanted[..i];
      }
      assert wanted[..|wanted|] == wanted;
    }

    /** The one loop behind the target map and the index: a value filed under every key. */
    static method PutAll<V>(m: map<bytes, V>, keys: seq<bytes>, v: V) returns (r: map<bytes, V>)
      ensures r == m + map k <- keys :: v
    {
      r := m;
      for i := 0 to |keys|
        invariant r == m + map k <- keys[..i] :: v
      {
        r := r[keys[i] := v];
        assert keys[..i + 1] == keys[..i] + [keys[i]];
      }
      assert keys[..|keys|] == keys;
    }

    method ConsumeBytes(n: nat)
      requires n <= |carry|
      modifies `carry, `streamOff
      ensures carry == old(carry)[n..] && streamOff == old(streamOff) + n
    {
      carry := carry[n..];
      streamOff := streamOff + n;
    }

    method SetIndex(path: bytes, pos: FilePos)
      modifies `index
      ensures index == IndexSet(old(index), path, pos)
    {
      index := PutAll(index, TargetPathKeys(path), pos);
    }

    method Record(path: bytes, size: nat)
      modifies `index
      ensures index == RecordPayload(old(index), recordIndex || indexMode, path, streamOff, size)
    {
      hide IndexSet;
      if path == [] || !(recordIndex || indexMode) { return; }
      SetIndex(path, FilePos(streamOff, size, 0, 0));
    }

    method FindInIndex(path: bytes) returns (pos: FilePos)
      ensures pos == IndexLookup(index, TargetPathKeys(path)).0
    {
      var keys := TargetPathKeys(path);
      while keys != []
        invariant IndexLookup(index, TargetPathKeys(path)) == IndexLookup(index, keys)
        decreases |keys|
      {
        if keys[0] in index { return index[keys[0]]; }
        keys := keys[1..];
      }
      pos := FilePos(0, 0, 0, 0);
    }

    method FinishIndexFileEntry()
      modifies `index, `entry
      ensures index == FinishEntry(old(index), old(entry), streamOff)
      ensures entry == old(entry).(path := [])
    {
      hide IndexSet, IndexLookup, TargetPathKeys;
      if entry.path == [] { return; }
      var pos := FindInIndex(entry.path);
      SetIndex(entry.path, pos.(entryStart := entry.start, entryEnd := streamOff));
      entry := entry.(path := []);
    }

    method FindTarget(path: bytes) returns (t: Target)
      ensures t == LookupTarget(goal, TargetPathKeys(path))
    {
      var keys := TargetPathKeys(path);
      while keys != []
        invariant LookupTarget(goal, TargetPathKeys(path)) == LookupTarget(goal, keys)
        decreases |keys|
      {
        if keys[0] in goal.targets && goal.targets[keys[0]].Target? && goal.targets[keys[0]].id !in goal.restored {
          return goal.targets[keys[0]];
        }
        keys := keys[1..];
      }
      t := NoTarget;
    }

    /** Drops the target's keys from the map and counts it. */
    method MarkRestored(t: Target)
      requires t.Target?
      modifies `goal
      ensures goal == MarkDone(old(goal), t, payload.out)
    {
      if t.id in goal.restored { return; }
      var before := goal.targets;
      var targets, left := before, before.Keys;
      while left != {}
        invariant left <= before.Keys
        invariant targets == map k <- before | k in left || before[k] != t :: before[k]
        decreases |left|
      {
        var k :| k in left;
        if targets[k] == t { targets := targets - {k}; }
        left := left - {k};
      }
      assert targets == map k <- before | before[k] != t :: before[k];
      goal := Goal(targets, goal.restored[t.id := payload.out], goal.pending - 1, goal.done + 1);
    }

    method FinishSkipped()
      modifies `index, `entry, `walk
      ensures CoreView() == EndSkip(old(CoreView()))
    {
      hide FinishEntry;
      if indexMode { FinishIndexFileEntry(); }
      walk := InDir;
    }

    method FinishPayload()
      modifies `goal, `walk, `payload
      ensures CoreView() == EndRead(old(CoreView()))
    {
      hide MarkDone;
      if payload.target.Target? { MarkRestored(payload.target); }
      payload := payload.(target := NoTarget, out := []);
      walk := InDir;
    }

    method StepAtRoot() returns (s: Signal)
      modifies this
      ensures Reports(s, StepRootEntry(old(View())))
    {
      hide FromLE;
      if |carry| < 16 { return Stopped; }
      if U64(carry, 0) != ENTRY { return Failing(ExpectedRootEntry); }
      var entryLen := AsInt(U64(carry, 8));
      if |carry| < entryLen { return Stopped; }
      if |carry| < 24 { return Panicking; }
      if !IsDirMode(U64(carry, 16)) { return Failing(RootNotDir); }
      if entryLen < 0 { return Panicking; }
      ConsumeBytes(entryLen);
      walk := InDir;
      return Progressed;
    }

    method StepAtGoodbye() returns (s: Signal)
      modifies this
      ensures Reports(s, StepGoodbye(old(View())))
    {
      hide FromLE;
      if |carry| < 16 { return Stopped; }
      var blockLen := AsInt(U64(carry, 8));
      if |carry| < blockLen { return Stopped; }
      if blockLen < 0 { return Panicking; }
      ConsumeBytes(blockLen);
      if |pathStack| > 0 { pathStack := pathStack[..|pathStack| - 1]; }
      walk := InDir;
      return Progressed;
    }

    method Open(path: bytes, size: nat, t: Target, next: Walk)
      requires |carry| >= 16
      modifies this
      ensures View() == Parser(OpenPayload(old(CoreView()), path, size, t, next), old(carry)[16..])
    {
      hide RecordPayload;
      Record(path, size);
      ConsumeBytes(16);
      payload := Payload(size, payload.path, t, []);
      walk := next;
    }

    method BeginSkip() returns (s: Signal)
      modifies this
      ensures Reports(s, BeginSkipPayload(old(View())))
    {
      hide OpenPayload, FromLE;
      if |carry| < 16 { return Stopped; }
      if U64(carry, 0) != PAYLOAD { return Failing(ExpectedPayload); }
      var plen := AsInt(U64(carry, 8));
      if plen < 16 { return Failing(InvalidPayloadHeader); }
      Open(payload.path, plen - 16, NoTarget, SkipPayload);
      return Progressed;
    }

    method BeginRead(t: Target) returns (s: Signal)
      requires t.Target?
      modifies this
      ensures Reports(s, BeginReadPayload(old(View()), t))
    {
      hide OpenPayload, FromLE;
      if |carry| < 16 { return Stopped; }
      if U64(carry, 0) != PAYLOAD { return Failing(ExpectedPayload); }
      var plen := AsInt(U64(carry, 8));
      if plen < 16 { return Failing(InvalidPayloadHeader); }
      Open(t.filePath, plen - 16, t, ReadPayload);
      return Progressed;
    }

    method StepAtFilename() returns (s: Signal)
      modifies this
      ensures Reports(s, StepFilename(old(View())))
    {
      hide FromLE, EnterChild;
      if |carry| < 16 { return Stopped; }
      var nameLen := AsInt(U64(carry, 8));
      if nameLen < 17 { return Stopped; }
      if nameLen > MAX_INT - 16 { return Panicking; }
      if |carry| < nameLen + 16 { return Stopped; }
      var total := WrapInt(nameLen + AsInt(U64(carry, nameLen + 8)));
      if |carry| < total { return Stopped; }
      if carry[nameLen - 1] != 0 { return Failing(FilenameTerminator); }
      var name := carry[16..nameLen - 1];
      if U64(carry, nameLen) != ENTRY { return Failing(ExpectedEntry); }
      if |carry| < nameLen + 24 || total < 0 { return Panicking; }
      var mode := U64(carry, nameLen + 16);
      ConsumeBytes(total);
      s := Enter(name, mode);
    }

    method Enter(name: bytes, mode: nat) returns (s: Signal)
      modifies this
      ensures Reports(s, EnterChild(old(View()), name, mode))
    {
      hide BeginSkipPayload, BeginReadPayload, LookupTarget, TargetPathKeys, CurrentPath, InSkip,
           DirRelevant, IsDirMode;
      var childPath := name;
      var cp := CurrentPath(pathStack);
      if cp != [] { childPath := cp + [BACKSLASH] + name; }
      var isDir := IsDirMode(mode);
      if indexMode && !isDir {
        entry := PendingEntry(streamOff, childPath);
      }
      var skipping := InSkip(pathStack);
      if isDir {
        var skipSubtree := skipping || !DirRelevant(indexMode, goal, childPath);
        pathStack := pathStack + [Frame(name, skipSubtree)];
        walk := InDir;
        return Progressed;
      }
      if skipping {
        payload := payload.(path := childPath);
        s := BeginSkip();
        return;
      }
      var t := FindTarget(childPath);
      payload := payload.(path := childPath);
      if t.Target? { s := BeginRead(t); } else { s := BeginSkip(); }
    }

    method StepAtDir() returns (s: Signal)
      modifies this
      ensures Reports(s, StepInDir(old(View())))
    {
      if |carry| < 8 { return Stopped; }
      var hdr := U64(carry, 0);
      if hdr == GOODBYE { s := StepAtGoodbye(); }
      else if hdr == FILENAME { s := StepAtFilename(); }
      else { s := Failing(UnexpectedDirBlock); }
    }

    method StepAtPayload() returns (s: Signal)
      requires walk == ReadPayload || walk == SkipPayload
      modifies this
      ensures Reports(s, StepPayload(old(View())))
    {
      hide EndSkip, EndRead;
      var skip := walk == SkipPayload;
      if payload.remain == 0 {
        if skip { FinishSkipped(); } else { FinishPayload(); }
        return Progressed;
      }
      var n := payload.remain;
      if n > |carry| { n := |carry|; }
      if n == 0 { return Stopped; }
      if !skip { payload := payload.(out := payload.out + carry[..n]); }
      ConsumeBytes(n);
      payload := payload.(remain := payload.remain - n);
      if payload.remain > 0 { return Progressed; }
      if skip { FinishSkipped(); } else { FinishPayload(); }
      return Progressed;
    }

    method TakeStep() returns (s: Signal)
      modifies this
      ensures Reports(s, Step(old(View())))
    {
      match walk
      case RootEntry => s := StepAtRoot();
      case InDir => s := StepAtDir();
      case ReadPayload => s := StepAtPayload();
      case SkipPayload => s := StepAtPayload();
    }

    /** The signal and the new state are those of the outcome. */
    ghost predicate Reports(s: Signal, o: Outcome)
      reads this
    {
      match o
      case Wait(q) => s == Stopped && View() == q
      case Torn(q) => s == Stopped && View() == q
      case Moved(q) => s == Progressed && View() == q
      case Fail(e) => s == Failing(e)
      case Panic => s == Panicking
    }

    /** How a feed ended; `Looping` is where the source would never return. */
    ghost predicate Ended(r: FeedReturn, want: Result)
      reads this
    {
      match want
      case Quiet(q) => r == Ok(goal.pending == 0) && View() == q
      case QuietTorn(q) => r == Ok(goal.pending == 0) && View() == q
      case Done(q) => r == Ok(true) && View() == q
      case Failed(e) => r == Err(e)
      case Panicked => r == Panics
      case Spins => r == Looping
    }

    method FeedChunk(chunk: bytes) returns (r: FeedReturn)
      modifies this
      ensures Ended(r, Feed(old(View()), chunk))
    {
      hide Step;
      if |chunk| > 0 { carry := carry + chunk; }
      assert View() == Append(old(View()), chunk);
      while true
        invariant Drain(View()) == Feed(old(View()), chunk)
        decreases |carry|, Rank(walk)
      {
        ghost var before := View();
        var oldLen, oldRank := |carry|, Rank(walk);
        var s := TakeStep();
        match s
        case Failing(e) => return Err(e);
        case Panicking => return Panics;
        case Stopped => return Ok(goal.pending == 0);
        case Progressed =>
          if goal.pending == 0 && !indexMode { return Ok(true); }
          if !(|carry| < oldLen || (|carry| == oldLen && Rank(walk) < oldRank)) { return Looping; }
      }
    }

    method Advance()
      modifies this
      ensures View() == AdvanceSkipPayload(old(View()))
    {
      hide EndSkip;
      if walk != SkipPayload { return; }
      streamOff := streamOff + payload.remain;
      payload := payload.(remain := 0);
      FinishSkipped();
    }

    /** The end of the stream: complete if nothing is pending. */
    method Finish() returns (complete: bool, done: nat)
      ensures complete <==> goal.pending <= 0
      ensures done == goal.done
    {
      if goal.pending > 0 { return false, goal.done; }
      return true, goal.done;
    }

    /** The headers are fed and the payload they announce is taken as read. */
    method FeedHeadersThenSkipPayload(header: bytes) returns (r: FeedReturn)
      modifies this
      ensures var want := Feed(old(View()), header);
        if want.Quiet? || want.QuietTorn? || want.Done?
        then r.Ok? && View() == AdvanceSkipPayload(want.p)
        else Ended(r, want)
    {
      hide Feed;
      r := FeedChunk(header);
      if r.Ok? { Advance(); }
    }
  }

  datatype FeedReturn = Ok(allDone: bool) | Err(error: Error) | Panics | Looping
}
