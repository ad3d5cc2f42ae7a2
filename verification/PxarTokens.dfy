/**
 The archive as a row of tokens, and the parser as a machine over tokens: what the
 byte-level steps amount to on well-formed input, for any cut of the bytes.
 */
module PxarTokens {
  import opened Bytes
  import opened PxarFormat
  import opened Paths
  import opened PxarStreamSpec
  import opened PxarSplit

  datatype Token =
    | Root(mode: nat, extra: bytes)
    | Enter(name: bytes, mode: nat, extra: bytes)
    | Leaf(name: bytes, mode: nat, extra: bytes, data: bytes)
    | Leave(table: seq<GoodbyeItem>)

  function TokenBytes(t: Token): bytes {
    match t
    case Root(mode, extra) => EntryBlock(mode, extra)
    case Enter(name, mode, extra) => Head(name, mode, extra)
    case Leaf(name, mode, extra, data) => Head(name, mode, extra) + Block(PAYLOAD, data)
    case Leave(table) => GoodbyeBlock(table)
  }

  /** Blocks as the format has them, of a size a Go slice can have. */
  predicate GoodToken(t: Token) {
    |TokenBytes(t)| <= MAX_INT &&
    match t
    case Root(mode, _) => mode < TWO_64 && IsDirMode(mode)
    case Enter(_, mode, _) => mode < TWO_64 && IsDirMode(mode)
    case Leaf(_, mode, _, _) => mode < TWO_64 && !IsDirMode(mode)
    case Leave(_) => true
  }

  predicate Expects(c: Core, t: Token) {
    c.walk == if t.Root? then RootEntry else InDir
  }

  // The token machine.

  function Ahead(c: Core, n: nat): Core {
    c.(streamOff := c.streamOff + n)
  }

  /** The state inside a file, once its payload header went by. */
  function InsideLeaf(c: Core, name: bytes, size: nat): Core {
    var path := ChildPath(c, name);
    var c' := if c.indexMode then c.(entry := PendingEntry(c.streamOff, path)) else c;
    var t := if InSkip(c.pathStack) then NoTarget else LookupTarget(c.goal, TargetPathKeys(path));
    OpenPayload(c'.(payload := c'.payload.(path := path)), if t.Target? then t.filePath else path,
                size, t, if t.Target? then ReadPayload else SkipPayload)
  }

  function Apply(c: Core, t: Token): Core {
    match t
    case Root(mode, extra) => Ahead(c, |EntryBlock(mode, extra)|).(walk := InDir)
    case Enter(name, mode, extra) =>
      var c' := Ahead(c, |Head(name, mode, extra)|);
      var skip := InSkip(c.pathStack) || !DirRelevant(c.indexMode, c.goal, ChildPath(c, name));
      c'.(pathStack := c.pathStack + [Frame(name, skip)], walk := InDir)
    case Leaf(name, mode, extra, data) =>
      EndPayload(TakePayload(InsideLeaf(Ahead(c, |Head(name, mode, extra)|), name, |data|), data))
    case Leave(table) =>
      Ahead(c, |GoodbyeBlock(table)|).(
        pathStack := if c.pathStack == [] then [] else c.pathStack[..|c.pathStack| - 1], walk := InDir)
  }

  // From bytes to tokens: whole tokens.

  lemma PrefixAt(part: bytes, rest: bytes)
    ensures At(part + rest, 0, part)
  {
  }

  lemma StepHead(c: Core, name: bytes, mode: nat, extra: bytes, rest: bytes)
    requires c.walk == InDir && mode < TWO_64 && |Head(name, mode, extra) + rest| <= MAX_INT
    ensures Step(Parser(c, Head(name, mode, extra) + rest))
         == EnterChild(Parser(Ahead(c, |Head(name, mode, extra)|), rest), name, mode)
  {
    hide ToLE, FromLE, EnterChild, Head;
    var head := Head(name, mode, extra);
    var carry := head + rest;
    PrefixAt(head, rest);
    HeadAt(carry, 0, name, mode, extra);
    assert carry[|head|..] == rest;
  }

  lemma StepRoot(c: Core, t: Token, rest: bytes)
    requires t.Root? && GoodToken(t) && Expects(c, t) && |TokenBytes(t) + rest| <= MAX_INT
    ensures Step(Parser(c, TokenBytes(t) + rest)) == Moved(Parser(Apply(c, t), rest))
  {
    hide ToLE, FromLE, EntryBlock, IsDirMode;
    var block := EntryBlock(t.mode, t.extra);
    PrefixAt(block, rest);
    EntryAt(block + rest, 0, t.mode, t.extra);
    EntryLength(t.mode, t.extra);
    assert (block + rest)[|block|..] == rest;
  }

  lemma EntryLength(mode: nat, extra: bytes)
    ensures |EntryBlock(mode, extra)| == 24 + |extra|
  {
  }

  lemma StepLeave(c: Core, t: Token, rest: bytes)
    requires t.Leave? && GoodToken(t) && Expects(c, t) && |TokenBytes(t) + rest| <= MAX_INT
    ensures Step(Parser(c, TokenBytes(t) + rest)) == Moved(Parser(Apply(c, t), rest))
  {
    hide ToLE, FromLE, TableBytes, Block;
    var block := GoodbyeBlock(t.table);
    PrefixAt(block, rest);
    BlockAt(block + rest, 0, GOODBYE, TableBytes(t.table));
    assert (block + rest)[|block|..] == rest;
  }

  lemma StepEnter(c: Core, t: Token, rest: bytes)
    requires t.Enter? && GoodToken(t) && Expects(c, t) && |TokenBytes(t) + rest| <= MAX_INT
    ensures Step(Parser(c, TokenBytes(t) + rest)) == Moved(Parser(Apply(c, t), rest))
  {
    hide ToLE, FromLE, IsDirMode, Head, CurrentPath, InSkip, DirRelevant;
    StepHead(c, t.name, t.mode, t.extra, rest);
  }

  /** The first of the two steps a file takes, when at least its payload header is there. */
  lemma StepLeaf(c: Core, t: Token, part: bytes)
    requires t.Leaf? && GoodToken(t) && Expects(c, t)
    requires |Head(t.name, t.mode, t.extra) + (BlockHeader(PAYLOAD, |t.data|) + part)| <= MAX_INT
    ensures Step(Parser(c, Head(t.name, t.mode, t.extra) + (BlockHeader(PAYLOAD, |t.data|) + part)))
         == Moved(Parser(InsideLeaf(Ahead(c, |Head(t.name, t.mode, t.extra)|), t.name, |t.data|), part))
  {
    hide ToLE, FromLE, IsDirMode, Head, CurrentPath, InSkip, LookupTarget, TargetPathKeys, OpenPayload, BlockHeader;
    var header := BlockHeader(PAYLOAD, |t.data|);
    StepHead(c, t.name, t.mode, t.extra, header + part);
    PrefixAt(header, part);
    HeaderAt(header + part, 0, PAYLOAD, |t.data|);
    assert (header + part)[16..] == part;
  }

  lemma InsideLeafFacts(c: Core, name: bytes, size: nat)
    ensures var d := InsideLeaf(c, name, size);
      d.payload.remain == size && d.walk != InDir && d.walk != RootEntry &&
      d.goal == c.goal && d.indexMode == c.indexMode
  {
    hide CurrentPath, InSkip, LookupTarget, TargetPathKeys, RecordPayload;
  }

  lemma StepPayloadEnd(c: Core, data: bytes, rest: bytes)
    requires c.walk != InDir && c.walk != RootEntry && c.payload.remain == |data|
    ensures Step(Parser(c, data + rest)) == Moved(Parser(EndPayload(TakePayload(c, data)), rest))
  {
    hide EndPayload;
    if data == [] {
      assert data + rest == rest;
      assert TakePayload(c, data) == c by { assert c.payload.out + data == c.payload.out; }
    } else {
      assert (data + rest)[..|data|] == data && (data + rest)[|data|..] == rest;
    }
  }

  lemma LeafBytes(t: Token, rest: bytes)
    requires t.Leaf?
    ensures TokenBytes(t) + rest
         == Head(t.name, t.mode, t.extra) + (BlockHeader(PAYLOAD, |t.data|) + (t.data + rest))
    ensures |TokenBytes(t)| == |Head(t.name, t.mode, t.extra)| + 16 + |t.data|
  {
    hide Head, BlockHeader;
  }

  /** A whole token takes the parser from one state of the token machine to the next. */
  lemma DrainToken(c: Core, t: Token, rest: bytes)
    requires GoodToken(t) && Expects(c, t) && !AllDone(c) && |TokenBytes(t) + rest| <= MAX_INT
    ensures Drain(Parser(c, TokenBytes(t) + rest))
         == var c' := Apply(c, t); if AllDone(c') then Done(Parser(c', rest)) else Drain(Parser(c', rest))
  {
    hide Step, ToLE, FromLE, Head, Block, EntryBlock, GoodbyeBlock, InsideLeaf, EndPayload, TakePayload, DirRelevant,
         InSkip, CurrentPath, IsDirMode;
    match t
    case Root(_, _) => StepRoot(c, t, rest); EntryLength(t.mode, t.extra);
    case Enter(_, _, _) => StepEnter(c, t, rest);
    case Leave(_) => StepLeave(c, t, rest); GoodbyeLength(t.table);
    case Leaf(name, mode, extra, data) =>
      LeafBytes(t, rest);
      StepLeaf(c, t, data + rest);
      var d := InsideLeaf(Ahead(c, |Head(name, mode, extra)|), name, |data|);
      InsideLeafFacts(Ahead(c, |Head(name, mode, extra)|), name, |data|);
      StepPayloadEnd(d, data, rest);
      EndsInDir(TakePayload(d, data));
  }

  lemma GoodbyeLength(table: seq<GoodbyeItem>)
    ensures |GoodbyeBlock(table)| >= 16
  {
  }

  lemma EndsInDir(c: Core)
    ensures EndPayload(c).walk == InDir
  {
    hide FinishEntry, MarkDone;
  }

  // From bytes to tokens: a token cut short.

  /** A piece that stops here leaves the entry consumed and the payload header missing. */
  predicate InHeaderWindow(t: Token, k: nat) {
    t.Leaf? && |Head(t.name, t.mode, t.extra)| <= k < |Head(t.name, t.mode, t.extra)| + 16
  }

  lemma PrefixU64(full: bytes, k: nat, pos: nat)
    requires pos + 8 <= k <= |full|
    ensures U64(full[..k], pos) == U64(full, pos)
  {
    assert full[..k][pos..pos + 8] == full[pos..pos + 8];
  }

  lemma WaitBlock(c: Core, t: Token, k: nat)
    requires (t.Root? || t.Leave?) && GoodToken(t) && Expects(c, t) && k < |TokenBytes(t)|
    ensures Step(Parser(c, TokenBytes(t)[..k])).Wait?
  {
    hide ToLE, FromLE, TableBytes, Block, IsDirMode;
    var full := TokenBytes(t);
    PrefixAt(full, []);
    assert full + [] == full;
    if t.Root? {
      EntryAt(full, 0, t.mode, t.extra);
      EntryLength(t.mode, t.extra);
    } else {
      BlockAt(full, 0, GOODBYE, TableBytes(t.table));
    }
    if k >= 8 { PrefixU64(full, k, 0); }
    if k >= 16 { PrefixU64(full, k, 8); }
  }

  lemma WaitHead(c: Core, name: bytes, mode: nat, extra: bytes, k: nat)
    requires c.walk == InDir && mode < TWO_64 && k < |Head(name, mode, extra)| <= MAX_INT
    ensures Step(Parser(c, Head(name, mode, extra)[..k])).Wait?
  {
    hide ToLE, FromLE, Head, EnterChild;
    var full := Head(name, mode, extra);
    PrefixAt(full, []);
    assert full + [] == full;
    HeadAt(full, 0, name, mode, extra);
    if k >= 8 { PrefixU64(full, k, 0); }
    if k >= 16 { PrefixU64(full, k, 8); }
    if k >= 17 + |name| + 16 { PrefixU64(full, k, 17 + |name| + 8); }
  }

  lemma TornLeaf(c: Core, t: Token, part: bytes)
    requires t.Leaf? && GoodToken(t) && Expects(c, t) && |part| < 16
    requires |Head(t.name, t.mode, t.extra) + part| <= MAX_INT
    ensures var o := Step(Parser(c, Head(t.name, t.mode, t.extra) + part));
      o.Torn? && o.p.carry == part && o.p.core.walk == InDir && !(AllDone(o.p.core) && !AllDone(c))
  {
    hide ToLE, FromLE, IsDirMode, Head, CurrentPath, InSkip, LookupTarget, TargetPathKeys;
    StepHead(c, t.name, t.mode, t.extra, part);
  }

  lemma DrainInsidePayload(c: Core, part: bytes)
    requires c.walk != InDir && c.walk != RootEntry && |part| < c.payload.remain && !AllDone(c)
    ensures Drain(Parser(c, part)).Quiet?
  {
    hide EndPayload;
    if part != [] {
      PartialPayload(Parser(c, part), [0]);
      var q := Parser(TakePayload(c, part), []);
      assert Step(q).Wait?;
      assert !AllDone(q.core);
    }
  }

  /** A feed that ends inside a token comes to rest, torn exactly in the header window. */
  lemma DrainPart(c: Core, t: Token, k: nat)
    requires GoodToken(t) && Expects(c, t) && !AllDone(c) && k < |TokenBytes(t)|
    ensures var r := Drain(Parser(c, TokenBytes(t)[..k]));
      if InHeaderWindow(t, k)
      then r.QuietTorn? && r.p.core.walk == InDir
           && r.p.carry == BlockHeader(PAYLOAD, |t.data|)[..k - |Head(t.name, t.mode, t.extra)|]
      else r.Quiet?
  {
    hide Step, ToLE, FromLE, Head, BlockHeader, EntryBlock, GoodbyeBlock, InsideLeaf;
    var part := TokenBytes(t)[..k];
    match t
    case Root(_, _) => WaitBlock(c, t, k);
    case Leave(_) => WaitBlock(c, t, k);
    case Enter(name, mode, extra) => WaitHead(c, name, mode, extra, k);
    case Leaf(name, mode, extra, data) =>
      var head, header := Head(name, mode, extra), BlockHeader(PAYLOAD, |data|);
      LeafBytes(t, []);
      assert TokenBytes(t) + [] == TokenBytes(t) && data + [] == data;
      var full := head + (header + data);
      if k < |head| {
        assert full[..k] == head[..k];
        WaitHead(c, name, mode, extra, k);
      } else if k < |head| + 16 {
        assert full[..k] == head + header[..k - |head|];
        TornLeaf(c, t, header[..k - |head|]);
      } else {
        var rest := data[..k - |head| - 16];
        assert full[..k] == head + (header + rest);
        StepLeaf(c, t, rest);
        InsideLeafFacts(Ahead(c, |head|), name, |data|);
        DrainInsidePayload(InsideLeaf(Ahead(c, |head|), name, |data|), rest);
      }
  }
}
