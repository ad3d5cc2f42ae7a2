/** Where the archive writer's cuts fall, and what the recorder makes of the stream up to there. */
module WriterCuts {
  import opened Bytes
  import opened Paths
  import opened PxarFormat
  import opened PxarStreamSpec
  import opened PxarSplit
  import opened PxarTokens
  import opened PxarRows
  import opened PxarTrees
  import opened PxarIndexTheorem
  import opened BackupSession

  lemma {:induction false} ReadablePrefix(w: Walk, toks: seq<Token>, i: nat)
    requires Readable(w, toks) && i <= |toks|
    ensures Readable(w, toks[..i])
    decreases i
  {
    hide GoodToken;
    if i > 0 {
      ReadablePrefix(InDir, toks[1..], i - 1);
      assert toks[..i][1..] == toks[1..][..i - 1];
    }
  }

  lemma {:induction false} NoWindowAtEnd(toks: seq<Token>)
    ensures !InWindow(toks, |Row(toks)|)
    decreases |toks|
  {
    hide TokenBytes;
    if toks != [] {
      NoWindowAtEnd(toks[1..]);
    }
  }

  /** A recorder that has seen whole tokens rests, with nothing carried. */
  lemma RestAfterTokens(toks: seq<Token>)
    requires Readable(RootEntry, toks) && |Row(toks)| <= MAX_INT
    ensures Drain(Parser(Recorder(), Row(toks))) == Quiet(Parser(ApplyAll(Recorder(), toks), []))
  {
    hide Apply, ApplyAll, Drain, Row, Readable, InWindow;
    NoWindowAtEnd(toks);
    AlwaysIndexing(Recorder(), toks);
    DrainRow(Recorder(), toks, |Row(toks)|);
    assert Row(toks)[..|Row(toks)|] == Row(toks);
  }

  lemma SameTokens(toks: seq<Token>, i: nat)
    requires i < |toks|
    ensures Row(toks[..i + 1]) == Row(toks[..i]) + TokenBytes(toks[i])
    ensures |Row(toks[..i + 1])| <= |Row(toks)|
  {
    hide TokenBytes, Row;
    assert toks[..i + 1] == toks[..i] + [toks[i]];
    RowAppend(toks[..i], [toks[i]]);
    RowOne(toks[i], []);
    assert [toks[i]] + [] == [toks[i]];
    EmptyRow();
    assert toks == toks[..i + 1] + toks[i + 1..];
    RowAppend(toks[..i + 1], toks[i + 1..]);
  }

  lemma PrefixOfSum(a: bytes, b: bytes, k: nat)
    requires k <= |b|
    ensures (a + b)[..|a| + k] == a + b[..k]
  {
  }

  /** Outside a file's header window, the recorder rests anywhere inside a block. */
  lemma RestAt(toks: seq<Token>, i: nat, k: nat)
    requires Readable(RootEntry, toks) && |Row(toks)| <= MAX_INT && i < |toks|
    requires k <= |TokenBytes(toks[i])| && !InHeaderWindow(toks[i], k)
    ensures Restful(Row(toks[..i]) + TokenBytes(toks[i])[..k])
  {
    hide Apply, ApplyAll, Drain, Row, Readable, InWindow, TokenBytes, InHeaderWindow, FinishedEarly, TornBefore;
    var t, pre := toks[i], toks[..i + 1];
    assert pre == toks[..i] + [t] && [t] == [t] + [];
    InWindowAppend(toks[..i], [t], |Row(toks[..i])| + k);
    InWindowOne(t, [], k);
    NoWindow(0, 0);
    SameTokens(toks, i);
    ReadablePrefix(RootEntry, toks, i + 1);
    PrefixOfSum(Row(toks[..i]), TokenBytes(t), k);
    AlwaysIndexing(Recorder(), pre);
    DrainRow(Recorder(), pre, |Row(toks[..i])| + k);
  }

  /** A file's headers, and the first `j` bytes of its payload. */
  function LeafStart(t: Token, j: nat): bytes
    requires t.Leaf? && j <= |t.data|
  {
    Head(t.name, t.mode, t.extra) + (BlockHeader(PAYLOAD, |t.data|) + t.data[..j])
  }

  lemma LeafStartIsPrefix(t: Token, j: nat)
    requires t.Leaf? && j <= |t.data|
    ensures |LeafStart(t, j)| <= |TokenBytes(t)|
    ensures LeafStart(t, j) == TokenBytes(t)[..|LeafStart(t, j)|]
    ensures |LeafStart(t, j)| == |Head(t.name, t.mode, t.extra)| + 16 + j
    ensures LeafStart(t, |t.data|) == TokenBytes(t)
  {
    hide Head, BlockHeader;
    LeafBytes(t, []);
    assert TokenBytes(t) + [] == TokenBytes(t) && t.data + [] == t.data && t.data[..|t.data|] == t.data;
    var h, b := Head(t.name, t.mode, t.extra), BlockHeader(PAYLOAD, |t.data|);
    assert (h + (b + t.data))[..|h| + 16 + j] == h + (b + t.data[..j]);
  }

  /** After a file's headers the recorder waits for exactly its payload. */
  lemma StateAfterHeaders(toks: seq<Token>, i: nat)
    requires Readable(RootEntry, toks) && |Row(toks)| <= MAX_INT && i < |toks| && toks[i].Leaf?
    ensures var d := Drain(Parser(Recorder(), Row(toks[..i]) + LeafStart(toks[i], 0)));
      d.Quiet? &&
      (if d.p.core.walk == SkipPayload then d.p.core.payload.remain == |toks[i].data| else toks[i].data == [])
  {
    hide Apply, ApplyAll, Drain, Row, Readable, LeafStart, TokenBytes, Head;
    var t := toks[i];
    SameTokens(toks, i);
    ReadablePrefix(RootEntry, toks, i);
    ReadableAt(RootEntry, toks, i);
    RestAfterTokens(toks[..i]);
    var c := ApplyAll(Recorder(), toks[..i]);
    IndexingState(Recorder(), toks[..i]);
    DrainSplit(Parser(Recorder(), Row(toks[..i])), LeafStart(t, 0));
    LeafStartIsPrefix(t, 0);
    HeadersOnly(c, t, LeafStart(t, 0));
  }

  lemma HeadersOnly(c: Core, t: Token, start: bytes)
    requires t.Leaf? && GoodToken(t) && c.walk == InDir && c.indexMode && c.goal.targets == map[]
    requires start == LeafStart(t, 0) && |start| <= MAX_INT
    ensures var d := Feed(Parser(c, []), start);
      d.Quiet? && (if d.p.core.walk == SkipPayload then d.p.core.payload.remain == |t.data| else t.data == [])
  {
    hide Step, Head, BlockHeader, GoodToken, InsideLeaf, EndPayload;
    assert [] + start == start && t.data[..0] == [];
    StepLeaf(c, t, []);
    var d := InsideLeaf(Ahead(c, |Head(t.name, t.mode, t.extra)|), t.name, |t.data|);
    InsideLeafFacts(Ahead(c, |Head(t.name, t.mode, t.extra)|), t.name, |t.data|);
    InsideSkips(Ahead(c, |Head(t.name, t.mode, t.extra)|), t.name, |t.data|);
    RestHere(d);
    if t.data == [] {
      EndsInDir(d);
      RestHere(EndPayload(d));
      assert Drain(Parser(EndPayload(d), [])) == Quiet(Parser(EndPayload(d), []));
      assert Drain(Parser(d, [])) == Quiet(Parser(EndPayload(d), []));
    } else {
      assert Drain(Parser(d, [])) == Quiet(Parser(d, []));
    }
  }

  lemma InsideSkips(c: Core, name: bytes, size: nat)
    requires c.indexMode && c.goal.targets == map[]
    ensures InsideLeaf(c, name, size).walk == SkipPayload && InsideLeaf(c, name, size).indexMode
    ensures EndPayload(InsideLeaf(c, name, size)).indexMode
  {
    hide CurrentPath, InSkip, LookupTarget, RecordPayload, FinishEntry;
    NoTargets(c.goal, TargetPathKeys(ChildPath(c, name)));
  }

  lemma RestHere(c: Core)
    requires c.walk == InDir || c.walk == SkipPayload
    ensures Step(Parser(c, [])) == if c.walk == InDir || c.payload.remain > 0 then Wait(Parser(c, []))
                                   else Moved(Parser(EndPayload(c), []))
  {
    hide EndPayload;
  }

  lemma {:induction false} ReadableAt(w: Walk, toks: seq<Token>, i: nat)
    requires Readable(w, toks) && i < |toks|
    ensures GoodToken(toks[i]) && (toks[i].Leaf? && w == RootEntry ==> i > 0)
    decreases i
  {
    hide GoodToken;
    if i > 0 {
      ReadableAt(InDir, toks[1..], i - 1);
    }
  }

  lemma {:induction false} IndexingState(c: Core, toks: seq<Token>)
    requires c.indexMode && c.goal.targets == map[]
    ensures var d := ApplyAll(c, toks);
      d.indexMode && d.goal.targets == map[] && (toks != [] ==> d.walk == InDir)
    decreases |toks|
  {
    hide Apply;
    if toks != [] {
      ApplyKeeps(c, toks[0]);
      ApplyKeepsNoTargets(c, toks[0]);
      IndexingState(Apply(c, toks[0]), toks[1..]);
    }
  }

  lemma ApplyKeepsNoTargets(c: Core, t: Token)
    requires c.indexMode && c.goal.targets == map[]
    ensures Apply(c, t).goal == c.goal
  {
    hide Head, EntryBlock, GoodbyeBlock, CurrentPath, InSkip, DirRelevant, LookupTarget, RecordPayload,
         FinishEntry, TargetPathKeys;
    if t.Leaf? {
      NoTargets(c.goal, TargetPathKeys(ChildPath(c, t.name)));
    }
  }

  lemma MoreOfLeaf(t: Token, j: nat, n: nat)
    requires t.Leaf? && j + n <= |t.data|
    ensures LeafStart(t, j + n) == LeafStart(t, j) + t.data[j..j + n]
  {
    hide Head, BlockHeader;
    assert t.data[..j + n] == t.data[..j] + t.data[j..j + n];
  }
}
