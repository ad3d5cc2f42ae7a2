/**
 What one step and one feed of the push parser do, as functions of its state.
 A step waits for more bytes, moves on, fails, or ends in a run-time panic.
 */
module PxarStreamSpec {
  import opened Bytes
  import opened PxarFormat
  import opened Paths

  datatype Walk = RootEntry | InDir | ReadPayload | SkipPayload

  datatype Frame = Frame(name: bytes, skip: bool)

  /** A restore request; `id` stands for the identity of the source's target record. */
  datatype Target = NoTarget | Target(id: nat, filePath: bytes)

  /** The payload being read or skipped. */
  datatype Payload = Payload(remain: nat, path: bytes, target: Target, out: bytes)

  /** The file whose index record is not finished yet. */
  datatype PendingEntry = PendingEntry(start: nat, path: bytes)

  /** What is still to be restored and what has been. */
  datatype Goal = Goal(targets: map<bytes, Target>, restored: map<nat, bytes>, pending: int, done: nat)

  /** Everything the parser holds except the bytes it has not consumed yet. */
  datatype Core = Core(
    indexMode: bool,
    recordIndex: bool,
    walk: Walk,
    streamOff: nat,
    pathStack: seq<Frame>,
    payload: Payload,
    entry: PendingEntry,
    index: map<bytes, FilePos>,
    goal: Goal)

  datatype Parser = Parser(core: Core, carry: bytes)

  datatype Error =
    | ExpectedRootEntry | RootNotDir | UnexpectedDirBlock | FilenameTerminator
    | ExpectedEntry | ExpectedPayload | InvalidPayloadHeader

  /** `Torn` is the wait in which a file's name and entry are already gone from the carry. */
  datatype Outcome = Wait(p: Parser) | Torn(p: Parser) | Moved(p: Parser) | Fail(error: Error) | Panic

  const NO_PAYLOAD := Payload(0, [], NoTarget, [])

  function Recorder(): Core {
    Core(true, false, RootEntry, 0, [], NO_PAYLOAD, PendingEntry(0, []), map[], Goal(map[], map[], 0, 0))
  }

  /** The target map the constructor fills: every key of every target, later ones winning. */
  function TargetMap(targets: seq<Target>): map<bytes, Target>
    requires forall t <- targets :: t.Target?
  {
    if targets == [] then map[] else
      var t := targets[|targets| - 1];
      TargetMap(targets[..|targets| - 1]) + (map k <- TargetPathKeys(t.filePath) :: t)
  }

  function Restorer(targets: seq<Target>, recordIndex: bool): Core
    requires forall t <- targets :: t.Target?
  {
    Core(false, recordIndex, RootEntry, 0, [], NO_PAYLOAD, PendingEntry(0, []), map[],
         Goal(TargetMap(targets), map[], |targets|, 0))
  }

  function CurrentPath(stack: seq<Frame>): bytes {
    if stack == [] then [] else
    if |stack| == 1 then stack[0].name else
      CurrentPath(stack[..|stack| - 1]) + [BACKSLASH] + stack[|stack| - 1].name
  }

  predicate InSkip(stack: seq<Frame>) {
    exists f <- stack :: f.skip
  }

  predicate DirRelevant(indexMode: bool, g: Goal, dir: bytes) {
    var norm := Lower(NormalizeRestorePath(dir));
    indexMode || (exists key <- g.targets.Keys :: norm + [BACKSLASH] <= key) || norm == []
  }

  function LookupTarget(g: Goal, keys: seq<bytes>): Target {
    if keys == [] then NoTarget
    else if keys[0] in g.targets && g.targets[keys[0]].Target? && g.targets[keys[0]].id !in g.restored
    then g.targets[keys[0]]
    else LookupTarget(g, keys[1..])
  }

  function IndexSet(index: map<bytes, FilePos>, path: bytes, pos: FilePos): map<bytes, FilePos> {
    index + (map k <- TargetPathKeys(path) :: pos)
  }

  /** The index after `recordIndexPayload`, which only records when asked to. */
  function RecordPayload(index: map<bytes, FilePos>, on: bool, path: bytes, off: nat, size: nat): map<bytes, FilePos> {
    if path == [] || !on then index else IndexSet(index, path, FilePos(off, size, 0, 0))
  }

  function IndexLookup(index: map<bytes, FilePos>, keys: seq<bytes>): (FilePos, bool) {
    if keys == [] then (FilePos(0, 0, 0, 0), false)
    else if keys[0] in index then (index[keys[0]], true)
    else IndexLookup(index, keys[1..])
  }

  /** The index after `finishIndexFileEntry`. */
  function FinishEntry(index: map<bytes, FilePos>, e: PendingEntry, off: nat): map<bytes, FilePos> {
    if e.path == [] then index else
      var (pos, _) := IndexLookup(index, TargetPathKeys(e.path));
      IndexSet(index, e.path, pos.(entryStart := e.start, entryEnd := off))
  }

  function MarkDone(g: Goal, t: Target, content: bytes): Goal
    requires t.Target?
  {
    if t.id in g.restored then g else
      Goal(map k <- g.targets | g.targets[k] != t :: g.targets[k],
           g.restored[t.id := content], g.pending - 1, g.done + 1)
  }

  /** The end of a payload that was skipped. */
  function EndSkip(c: Core): Core {
    c.(walk := InDir,
       index := if c.indexMode then FinishEntry(c.index, c.entry, c.streamOff) else c.index,
       entry := if c.indexMode then c.entry.(path := []) else c.entry)
  }

  /** The end of a payload that was written out. */
  function EndRead(c: Core): Core {
    var t := c.payload.target;
    c.(walk := InDir, payload := c.payload.(target := NoTarget, out := []),
       goal := if t.Target? then MarkDone(c.goal, t, c.payload.out) else c.goal)
  }

  /** Takes `n` bytes off the carry; a negative count panics in the source. */
  function Consume(p: Parser, n: nat): Parser
    requires n <= |p.carry|
  {
    Parser(p.core.(streamOff := p.core.streamOff + n), p.carry[n..])
  }

  function StepRootEntry(p: Parser): Outcome {
    if |p.carry| < 16 then Wait(p)
    else if U64(p.carry, 0) != ENTRY then Fail(ExpectedRootEntry)
    else
      var entryLen := AsInt(U64(p.carry, 8));
      if |p.carry| < entryLen then Wait(p)
      else if |p.carry| < 24 then Panic
      else if !IsDirMode(U64(p.carry, 16)) then Fail(RootNotDir)
      else if entryLen < 0 then Panic
      else var q := Consume(p, entryLen); Moved(q.(core := q.core.(walk := InDir)))
  }

  function StepGoodbye(p: Parser): Outcome {
    if |p.carry| < 16 then Wait(p)
    else
      var blockLen := AsInt(U64(p.carry, 8));
      if |p.carry| < blockLen then Wait(p)
      else if blockLen < 0 then Panic
      else
        var q := Consume(p, blockLen);
        var stack := q.core.pathStack;
        Moved(q.(core := q.core.(
          pathStack := if stack == [] then [] else stack[..|stack| - 1], walk := InDir)))
  }

  /** The state once the 16 header bytes of a payload of `size` bytes are consumed. */
  function OpenPayload(c: Core, path: bytes, size: nat, t: Target, next: Walk): Core {
    c.(index := RecordPayload(c.index, c.recordIndex || c.indexMode, path, c.streamOff, size),
       streamOff := c.streamOff + 16,
       payload := Payload(size, c.payload.path, t, []), walk := next)
  }

  /** The payload header of a file that is to be passed over, after its entry was consumed. */
  function BeginSkipPayload(p: Parser): Outcome {
    if |p.carry| < 16 then Torn(p)
    else if U64(p.carry, 0) != PAYLOAD then Fail(ExpectedPayload)
    else
      var plen := AsInt(U64(p.carry, 8));
      if plen < 16 then Fail(InvalidPayloadHeader)
      else
        Moved(Parser(OpenPayload(p.core, p.core.payload.path, plen - 16, NoTarget, SkipPayload), p.carry[16..]))
  }

  function BeginReadPayload(p: Parser, t: Target): Outcome
    requires t.Target?
  {
    if |p.carry| < 16 then Torn(p)
    else if U64(p.carry, 0) != PAYLOAD then Fail(ExpectedPayload)
    else
      var plen := AsInt(U64(p.carry, 8));
      if plen < 16 then Fail(InvalidPayloadHeader)
      else
        Moved(Parser(OpenPayload(p.core, t.filePath, plen - 16, t, ReadPayload), p.carry[16..]))
  }

  function ChildPath(c: Core, name: bytes): bytes {
    Join(CurrentPath(c.pathStack), name)
  }

  /** The part of `stepFilename` after the name and the entry have been consumed. */
  function EnterChild(p: Parser, name: bytes, mode: nat): Outcome {
    var path := ChildPath(p.core, name);
    var skipping := InSkip(p.core.pathStack);
    if IsDirMode(mode) then
      var frame := Frame(name, skipping || !DirRelevant(p.core.indexMode, p.core.goal, path));
      Moved(p.(core := p.core.(pathStack := p.core.pathStack + [frame], walk := InDir)))
    else
      var c := if p.core.indexMode
               then p.core.(entry := PendingEntry(p.core.streamOff, path))
               else p.core;
      var t := if skipping then NoTarget else LookupTarget(c.goal, TargetPathKeys(path));
      var q := p.(core := c.(payload := c.payload.(path := path)));
      if t.Target? then BeginReadPayload(q, t) else BeginSkipPayload(q)
  }

  function StepFilename(p: Parser): Outcome {
    if |p.carry| < 16 then Wait(p)
    else
      var nameLen := AsInt(U64(p.carry, 8));
      if nameLen < 17 then Wait(p)
      else if nameLen > MAX_INT - 16 then Panic
      else if |p.carry| < nameLen + 16 then Wait(p)
      else
        var total := WrapInt(nameLen + AsInt(U64(p.carry, nameLen + 8)));
        if |p.carry| < total then Wait(p)
        else if p.carry[nameLen - 1] != 0 then Fail(FilenameTerminator)
        else if U64(p.carry, nameLen) != ENTRY then Fail(ExpectedEntry)
        else if |p.carry| < nameLen + 24 || total < 0 then Panic
        else EnterChild(Consume(p, total), p.carry[16..nameLen - 1], U64(p.carry, nameLen + 16))
  }

  function StepInDir(p: Parser): Outcome {
    if |p.carry| < 8 then Wait(p)
    else if U64(p.carry, 0) == GOODBYE then StepGoodbye(p)
    else if U64(p.carry, 0) == FILENAME then StepFilename(p)
    else Fail(UnexpectedDirBlock)
  }

  function EndPayload(c: Core): Core {
    if c.walk == SkipPayload then EndSkip(c) else EndRead(c)
  }

  /** The state after `part` of the payload went by, written out or not. */
  function TakePayload(c: Core, part: bytes): Core
    requires |part| <= c.payload.remain
  {
    var pl := c.payload;
    var out := if c.walk == ReadPayload then pl.out + part else pl.out;
    c.(streamOff := c.streamOff + |part|, payload := pl.(remain := pl.remain - |part|, out := out))
  }

  function StepPayload(p: Parser): Outcome {
    var remain := p.core.payload.remain;
    if remain == 0 then Moved(p.(core := EndPayload(p.core)))
    else if p.carry == [] then Wait(p)
    else
      var n := if remain > |p.carry| then |p.carry| else remain;
      var c := TakePayload(p.core, p.carry[..n]);
      Moved(Parser(if remain > n then c else EndPayload(c), p.carry[n..]))
  }

  function Step(p: Parser): Outcome {
    match p.core.walk
    case RootEntry => StepRootEntry(p)
    case InDir => StepInDir(p)
    case ReadPayload => StepPayload(p)
    case SkipPayload => StepPayload(p)
  }

  function Rank(w: Walk): nat {
    if w == InDir then 0 else 1
  }

  /** A step that moves makes progress when it eats bytes or comes down to a directory. */
  predicate Progress(p: Parser, q: Parser) {
    |q.carry| < |p.carry| || (|q.carry| == |p.carry| && Rank(q.core.walk) < Rank(p.core.walk))
  }

  /** `Spins` marks the inputs on which the source's loop never comes to rest. */
  datatype Result = Quiet(p: Parser) | QuietTorn(p: Parser) | Done(p: Parser) | Failed(error: Error) | Panicked | Spins

  predicate AllDone(c: Core) {
    c.goal.pending == 0 && !c.indexMode
  }

  /** The loop of `feed`, after the new bytes joined the carry. */
  function Drain(p: Parser): Result
    decreases |p.carry|, Rank(p.core.walk)
  {
    match Step(p)
    case Wait(q) => Quiet(q)
    case Torn(q) => QuietTorn(q)
    case Fail(e) => Failed(e)
    case Panic => Panicked
    case Moved(q) => if AllDone(q.core) then Done(q) else if Progress(p, q) then Drain(q) else Spins
  }

  function Append(p: Parser, chunk: bytes): Parser {
    p.(carry := p.carry + chunk)
  }

  function Feed(p: Parser, chunk: bytes): Result {
    Drain(Append(p, chunk))
  }

  /** Pieces fed one after another until one of them ends the restore or fails. */
  function FeedAll(p: Parser, pieces: seq<bytes>): Result
    decreases |pieces|
  {
    if pieces == [] then Quiet(p) else
      match Feed(p, pieces[0])
      case Quiet(q) => FeedAll(q, pieces[1..])
      case QuietTorn(q) => FeedAll(q, pieces[1..])
      case Done(q) => Done(q)
      case Failed(e) => Failed(e)
      case Panicked => Panicked
      case Spins => Spins
  }

  /** `advanceSkipPayload`: the rest of a skipped payload, taken as read. */
  function AdvanceSkipPayload(p: Parser): Parser {
    if p.core.walk != SkipPayload then p else
      var c := p.core;
      p.(core := EndSkip(c.(streamOff := c.streamOff + c.payload.remain, payload := c.payload.(remain := 0))))
  }
}
