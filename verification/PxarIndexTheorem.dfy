/** The index recorder: what it holds after any archive, however the bytes were cut. */
module PxarIndexTheorem {
  import opened Bytes
  import opened PxarFormat
  import opened Paths
  import opened PxarStreamSpec
  import opened PxarTokens
  import opened PxarRows
  import opened PxarTrees

  function FoldIndex(index: map<bytes, FilePos>, files: seq<Located>): map<bytes, FilePos>
    decreases |files|
  {
    if files == [] then index
    else FoldIndex(IndexSet(index, files[0].path, files[0].pos), files[1..])
  }

  lemma {:induction false} FoldIndexAppend(index: map<bytes, FilePos>, a: seq<Located>, b: seq<Located>)
    ensures FoldIndex(index, a + b) == FoldIndex(FoldIndex(index, a), b)
    decreases |a|
  {
    hide IndexSet;
    if a == [] {
      assert a + b == b;
    } else {
      assert (a + b)[0] == a[0] && (a + b)[1..] == a[1..] + b;
      FoldIndexAppend(IndexSet(index, a[0].path, a[0].pos), a[1..], b);
    }
  }

  predicate Named(stack: seq<Frame>) {
    forall f <- stack :: f.name != []
  }

  lemma {:induction false} PathOfPush(stack: seq<Frame>, f: Frame)
    requires Named(stack) && f.name != []
    ensures CurrentPath(stack + [f]) == Join(CurrentPath(stack), f.name)
  {
    if stack != [] {
      assert (stack + [f])[..|stack|] == stack;
      PathNotEmpty(stack);
    }
  }

  lemma {:induction false} PathNotEmpty(stack: seq<Frame>)
    requires Named(stack) && stack != []
    ensures CurrentPath(stack) != []
  {
  }

  lemma {:induction false} NoTargets(g: Goal, keys: seq<bytes>)
    requires g.targets == map[]
    ensures LookupTarget(g, keys) == NoTarget
    decreases |keys|
  {
    if keys != [] {
      NoTargets(g, keys[1..]);
    }
  }

  /** The two visits a file pays to the index leave one complete record. */
  lemma RecordThenFinish(index: map<bytes, FilePos>, path: bytes, off: nat, size: nat, end: nat)
    requires path != []
    ensures FinishEntry(RecordPayload(index, true, path, off, size), PendingEntry(off, path), end)
         == IndexSet(index, path, FilePos(off, size, off, end))
  {
    var keys := TargetPathKeys(path);
    var first := IndexSet(index, path, FilePos(off, size, 0, 0));
    assert keys[0] in keys;
    assert IndexLookup(first, keys).0 == FilePos(off, size, 0, 0);
  }

  lemma IndexLeaf(c: Core, t: Token)
    requires c.indexMode && c.goal.targets == map[] && t.Leaf? && t.name != []
    ensures var d := Apply(c, t); var at := c.streamOff + |Head(t.name, t.mode, t.extra)|;
      && d.index == IndexSet(c.index, ChildPath(c, t.name), FilePos(at, |t.data|, at, at + 16 + |t.data|))
      && d.pathStack == c.pathStack && d.goal == c.goal
  {
    hide Head, CurrentPath, InSkip, LookupTarget, TargetPathKeys, FinishEntry, RecordPayload, MarkDone, IndexSet;
    var at := c.streamOff + |Head(t.name, t.mode, t.extra)|;
    NoTargets(c.goal, TargetPathKeys(ChildPath(c, t.name)));
    RecordThenFinish(c.index, ChildPath(c, t.name), at, |t.data|, at + 16 + |t.data|);
  }

  lemma ApplyOne(c: Core, t: Token, rest: seq<Token>)
    ensures ApplyAll(c, [t] + rest) == ApplyAll(Apply(c, t), rest)
  {
    hide Apply;
    assert ([t] + rest)[1..] == rest;
  }

  /** What walking one chain of siblings does to the recorder. */
  predicate Indexed(c: Core, s: Siblings, d: Core) {
    && d.index == FoldIndex(c.index, Files(s, CurrentPath(c.pathStack), c.streamOff))
    && d.pathStack == c.pathStack && d.goal == c.goal
    && d.streamOff == c.streamOff + |Encode(s)| && d.indexMode && d.walk == InDir
  }

  predicate Recording(c: Core) {
    c.indexMode && c.goal.targets == map[] && Named(c.pathStack) && c.walk == InDir
  }

  lemma {:induction false} IndexTree(c: Core, s: Siblings)
    requires Recording(c) && WellFormed(s)
    ensures Indexed(c, s, ApplyAll(c, Tokens(s)))
    decreases s, 1
  {
    hide Apply, ApplyAll, CurrentPath, IndexSet, Head, Block, FoldIndex, IsDirMode;
    match s
    case End => NoTokens(c);
    case File(name, mode, extra, data, next) =>
      var t := Leaf(name, mode, extra, data);
      ApplyOne(c, t, Tokens(next));
      IndexLeaf(c, t);
      ApplyKeeps(c, t);
      LeafBytes(t, []);
      assert TokenBytes(t) + [] == TokenBytes(t);
      IndexTree(Apply(c, t), next);
      FoldOne(c.index, Files(s, CurrentPath(c.pathStack), c.streamOff));
      assert Files(s, CurrentPath(c.pathStack), c.streamOff)[1..]
          == Files(next, CurrentPath(c.pathStack), Apply(c, t).streamOff);
    case Dir(_, _, _, _, _, _) => IndexDir(c, s);
  }

  lemma {:induction false} IndexDir(c: Core, s: Siblings)
    requires Recording(c) && WellFormed(s) && s.Dir?
    ensures Indexed(c, s, ApplyAll(c, Tokens(s)))
    decreases s, 0
  {
    hide Apply, ApplyAll, CurrentPath, Head, GoodbyeBlock, FoldIndex, IsDirMode, Tokens, InSkip, DirRelevant;
    DirCourse(c, s);
    var enter, leave := Enter(s.name, s.mode, s.extra), Leave(s.table);
    EnterFacts(c, enter);
    ApplyKeeps(c, enter);
    var c1 := Apply(c, enter);
    PathOfPush(c.pathStack, c1.pathStack[|c.pathStack|]);
    IndexTree(c1, s.kids);
    var c2 := ApplyAll(c1, Tokens(s.kids));
    LeaveFacts(c2, leave);
    ApplyKeeps(c2, leave);
    IndexTree(Apply(c2, leave), s.next);
    FoldIndexAppend(c.index, Files(s.kids, CurrentPath(c1.pathStack), c1.streamOff),
                    Files(s.next, CurrentPath(c.pathStack), Apply(c2, leave).streamOff));
  }

  /** A directory's tokens: in, through its content, out, and on. */
  lemma DirCourse(c: Core, s: Siblings)
    requires s.Dir?
    ensures var inside := ApplyAll(Apply(c, Enter(s.name, s.mode, s.extra)), Tokens(s.kids));
      ApplyAll(c, Tokens(s)) == ApplyAll(Apply(inside, Leave(s.table)), Tokens(s.next))
  {
    hide Apply, ApplyAll;
    var enter, leave := Enter(s.name, s.mode, s.extra), Leave(s.table);
    ApplyOne(c, enter, Tokens(s.kids) + ([leave] + Tokens(s.next)));
    ApplyAllAppend(Apply(c, enter), Tokens(s.kids), [leave] + Tokens(s.next));
    ApplyOne(ApplyAll(Apply(c, enter), Tokens(s.kids)), leave, Tokens(s.next));
  }

  lemma NoTokens(c: Core)
    ensures ApplyAll(c, []) == c && FoldIndex(c.index, []) == c.index
  {
  }

  lemma FoldOne(index: map<bytes, FilePos>, files: seq<Located>)
    requires files != []
    ensures FoldIndex(index, files) == FoldIndex(IndexSet(index, files[0].path, files[0].pos), files[1..])
  {
  }

  lemma EnterFacts(c: Core, t: Token)
    requires t.Enter?
    ensures var d := Apply(c, t);
      && |d.pathStack| == |c.pathStack| + 1 && d.pathStack[..|c.pathStack|] == c.pathStack
      && d.pathStack == c.pathStack + [d.pathStack[|c.pathStack|]]
      && d.pathStack[|c.pathStack|] == Frame(t.name,
           InSkip(c.pathStack) || !DirRelevant(c.indexMode, c.goal, ChildPath(c, t.name)))
      && d.index == c.index && d.goal == c.goal && d.recordIndex == c.recordIndex
  {
    hide Head, CurrentPath, InSkip, DirRelevant;
  }

  lemma LeaveFacts(c: Core, t: Token)
    requires t.Leave? && c.pathStack != []
    ensures var d := Apply(c, t);
      && d.pathStack == c.pathStack[..|c.pathStack| - 1]
      && d.index == c.index && d.goal == c.goal && d.recordIndex == c.recordIndex
  {
    hide GoodbyeBlock;
  }

  lemma RootFacts(c: Core, t: Token)
    requires t.Root?
    ensures var d := Apply(c, t);
      d.pathStack == c.pathStack && d.index == c.index && d.goal == c.goal && d.recordIndex == c.recordIndex
  {
    hide EntryBlock;
  }

  lemma IndexArchive(a: Archive)
    requires WellFormedArchive(a)
    ensures ApplyAll(Recorder(), ArchiveTokens(a)).index == FoldIndex(map[], ArchiveFiles(a))
    ensures ApplyAll(Recorder(), ArchiveTokens(a)).streamOff == |EncodeArchive(a)|
  {
    hide Apply, ApplyAll, IndexSet, EntryBlock, GoodbyeBlock, FoldIndex, IsDirMode, WellFormed, Files;
    var root, leave := Root(a.mode, a.extra), Leave(a.table);
    var c := Recorder();
    ApplyOne(c, root, Tokens(a.kids) + [leave]);
    RootFacts(c, root);
    ApplyKeeps(c, root);
    var c1 := Apply(c, root);
    ApplyAllAppend(c1, Tokens(a.kids), [leave]);
    IndexTree(c1, a.kids);
    var c2 := ApplyAll(c1, Tokens(a.kids));
    ApplyOne(c2, leave, []);
    assert [leave] + [] == [leave];
    NoTokens(Apply(c2, leave));
    ApplyKeeps(c2, leave);
    LastLeave(c2, leave);
  }

  lemma LastLeave(c: Core, t: Token)
    requires t.Leave?
    ensures Apply(c, t).index == c.index && Apply(c, t).goal == c.goal
  {
    hide GoodbyeBlock;
  }

  /**
   The main theorem on the recorder. Every archive may be fed in any pieces: if no piece
   ends between a file's entry and the end of its payload header, the recorder ends with
   the index of exactly the archive's files; if some piece does, the feeding fails.
   */
  lemma RecorderIsExact(a: Archive, pieces: seq<bytes>)
    requires WellFormedArchive(a) && |EncodeArchive(a)| <= MAX_INT && Flatten(pieces) == EncodeArchive(a)
    ensures var r := FeedAll(Parser(Recorder(), []), pieces);
      if exists j :: 0 < j <= |pieces| && CutsAFile(ArchiveFiles(a), |Flatten(pieces[..j])|)
      then r == Failed(UnexpectedDirBlock)
      else r.Quiet? && r.p.carry == [] && r.p.core.streamOff == |EncodeArchive(a)|
           && r.p.core.index == FoldIndex(map[], ArchiveFiles(a))
  {
    hide Apply, ApplyAll, InWindow, Drain, FeedAll, CutsAFile, Row, ArchiveTokens, EncodeArchive, Readable,
         WellFormedArchive, ArchiveFiles, Flatten, Served;
    var c, toks := Recorder(), ArchiveTokens(a);
    RowOfArchive(a);
    ArchiveIsReadable(a);
    NothingToDo(c);
    assert pieces[..0] == [] && pieces[0..] == pieces;
    assert Flatten(pieces[..0]) == [] by { EmptyFlatten(); }
    FeedFrom(c, toks, pieces, 0, Parser(c, []));
    AlwaysIndexing(c, toks);
    IndexArchive(a);
    forall j | 0 < j <= |pieces|
      ensures InWindow(toks, |Flatten(pieces[..j])|) <==> CutsAFile(ArchiveFiles(a), |Flatten(pieces[..j])|)
    {
      PrefixOfFlatten(pieces, j);
      WindowsOfArchive(a, |Flatten(pieces[..j])|);
    }
  }

  lemma EmptyFlatten()
    ensures Flatten<byte>([]) == []
  {
  }

  lemma {:induction false} StaysIndexing(c: Core, toks: seq<Token>)
    requires c.indexMode
    ensures ApplyAll(c, toks).indexMode
    decreases |toks|
  {
    hide Apply;
    if toks != [] {
      ApplyKeeps(c, toks[0]);
      StaysIndexing(Apply(c, toks[0]), toks[1..]);
    }
  }

  lemma {:induction false} NeverServed(c: Core, toks: seq<Token>, k: nat)
    requires c.indexMode
    ensures !Served(c, toks, k)
    decreases |toks|
  {
    hide Apply, TokenBytes;
    if toks != [] && |TokenBytes(toks[0])| <= k {
      ApplyKeeps(c, toks[0]);
      NeverServed(Apply(c, toks[0]), toks[1..], k - |TokenBytes(toks[0])|);
    }
  }

  lemma AlwaysIndexing(c: Core, toks: seq<Token>)
    requires c.indexMode
    ensures forall q :: !FinishedEarly(c, toks, q)
    ensures forall k :: !Served(c, toks, k)
  {
    hide ApplyAll;
    forall k
      ensures !Served(c, toks, k)
    {
      NeverServed(c, toks, k);
    }
    forall j | 0 <= j <= |toks|
      ensures ApplyAll(c, toks[..j]).indexMode
    {
      StaysIndexing(c, toks[..j]);
    }
  }

  // What such an index says when it is asked.

  predicate SharesKey(p: bytes, q: bytes) {
    exists k <- TargetPathKeys(p) :: k in TargetPathKeys(q)
  }

  predicate DistinctKeys(files: seq<Located>) {
    forall i, j :: 0 <= i < j < |files| ==> !SharesKey(files[i].path, files[j].path)
  }

  lemma {:induction false} FoldKeeps(index: map<bytes, FilePos>, files: seq<Located>, key: bytes)
    requires forall f <- files :: key !in TargetPathKeys(f.path)
    ensures key in FoldIndex(index, files) <==> key in index
    ensures key in index ==> FoldIndex(index, files)[key] == index[key]
    decreases |files|
  {
    hide TargetPathKeys;
    if files != [] {
      FoldKeeps(IndexSet(index, files[0].path, files[0].pos), files[1..], key);
    }
  }

  /** With distinct keys the index answers for every file, and answers right. */
  lemma {:induction false} IndexAnswers(index: map<bytes, FilePos>, files: seq<Located>, i: nat)
    requires i < |files| && DistinctKeys(files)
    ensures IndexLookup(FoldIndex(index, files), TargetPathKeys(files[i].path)) == (files[i].pos, true)
    decreases |files|
  {
    hide TargetPathKeys;
    var first := IndexSet(index, files[0].path, files[0].pos);
    if i == 0 {
      var key := TargetPathKeys(files[0].path)[0];
      forall f <- files[1..]
        ensures key !in TargetPathKeys(f.path)
      {
        var j :| 1 <= j < |files| && files[j] == f;
        assert !SharesKey(files[0].path, files[j].path);
      }
      FoldKeeps(first, files[1..], key);
    } else {
      IndexAnswers(first, files[1..], i - 1);
    }
  }

  /** What stands under a key is the position of a file with that key. */
  lemma {:induction false} IndexedPosition(index: map<bytes, FilePos>, files: seq<Located>, key: bytes)
    requires key in FoldIndex(index, files)
    ensures (key in index && FoldIndex(index, files)[key] == index[key])
         || exists f <- files :: key in TargetPathKeys(f.path) && FoldIndex(index, files)[key] == f.pos
    decreases |files|
  {
    hide TargetPathKeys;
    if files != [] {
      IndexedPosition(IndexSet(index, files[0].path, files[0].pos), files[1..], key);
      assert forall f :: f in files <==> f == files[0] || f in files[1..];
    }
  }

  lemma {:induction false} LookupTakesOne(index: map<bytes, FilePos>, keys: seq<bytes>)
    ensures IndexLookup(index, keys).1 <==> exists k <- keys :: k in index
    ensures IndexLookup(index, keys).1 ==> exists k <- keys :: k in index && IndexLookup(index, keys).0 == index[k]
    decreases |keys|
  {
    if keys != [] {
      LookupTakesOne(index, keys[1..]);
      assert forall k :: k in keys <==> k == keys[0] || k in keys[1..];
    }
  }

  predicate IsListed(files: seq<Located>, path: bytes) {
    exists f <- files :: SharesKey(path, f.path)
  }

  /** A path is found in the index exactly if a file has one of its keys, and the position is such a file's. */
  lemma LookupIsAFile(files: seq<Located>, path: bytes)
    ensures var (pos, found) := IndexLookup(FoldIndex(map[], files), TargetPathKeys(path));
      && (found <==> IsListed(files, path))
      && (found ==> exists f <- files :: SharesKey(path, f.path) && pos == f.pos)
  {
    hide TargetPathKeys, FoldIndex;
    var index, keys := FoldIndex(map[], files), TargetPathKeys(path);
    LookupTakesOne(index, keys);
    forall k <- keys
      ensures k in index <==> exists f <- files :: k in TargetPathKeys(f.path)
    {
      IndexHoldsNothingElse(map[], files, k);
    }
    if IndexLookup(index, keys).1 {
      var k :| k in keys && k in index && IndexLookup(index, keys).0 == index[k];
      IndexedPosition(map[], files, k);
    }
  }

  /** No key is in the index unless some file put it there. */
  lemma {:induction false} IndexHoldsNothingElse(index: map<bytes, FilePos>, files: seq<Located>, key: bytes)
    ensures key in FoldIndex(index, files)
       <==> key in index || exists f <- files :: key in TargetPathKeys(f.path)
    decreases |files|
  {
    hide TargetPathKeys;
    if files != [] {
      IndexHoldsNothingElse(IndexSet(index, files[0].path, files[0].pos), files[1..], key);
      assert forall f :: f in files <==> f == files[0] || f in files[1..];
    }
  }
}
