/**
 Selective restore by streaming. Whole subtrees are skipped and the feed stops early,
 yet the targets receive what an unpruned pass over every file would give them.
 */
module PxarRestoreTheorem {
  import opened Bytes
  import opened PxarFormat
  import opened Paths
  import opened PxarStreamSpec
  import opened PxarTokens
  import opened PxarRows
  import opened PxarTrees
  import opened PxarIndexTheorem

  function FileKey(f: Located): bytes {
    Lower(NormalizeRestorePath(f.path))
  }

  /** No path in the stream looks like `c:\...`. */
  predicate Plain(files: seq<Located>) {
    forall f <- files :: !HasDrivePrefix(f.path)
  }

  /** One unpruned pass: every file is looked up among the targets still open. */
  function FoldGoal(g: Goal, files: seq<Located>): Goal
    decreases |files|
  {
    if files == [] then g else
      var t := LookupTarget(g, [FileKey(files[0])]);
      FoldGoal(if t.Target? then MarkDone(g, t, files[0].data) else g, files[1..])
  }

  lemma {:induction false} FoldGoalAppend(g: Goal, a: seq<Located>, b: seq<Located>)
    ensures FoldGoal(g, a + b) == FoldGoal(FoldGoal(g, a), b)
    decreases |a|
  {
    hide LookupTarget, MarkDone, FileKey;
    if a == [] {
      assert a + b == b;
    } else {
      assert (a + b)[0] == a[0] && (a + b)[1..] == a[1..] + b;
      var t := LookupTarget(g, [FileKey(a[0])]);
      FoldGoalAppend(if t.Target? then MarkDone(g, t, a[0].data) else g, a[1..], b);
    }
  }

  predicate Unwanted(g: Goal, files: seq<Located>) {
    forall f <- files :: LookupTarget(g, [FileKey(f)]) == NoTarget
  }

  lemma {:induction false} FoldUnwanted(g: Goal, files: seq<Located>)
    requires Unwanted(g, files)
    ensures FoldGoal(g, files) == g
    decreases |files|
  {
    hide LookupTarget, FileKey;
    if files != [] {
      FoldUnwanted(g, files[1..]);
    }
  }

  lemma {:induction false} FilesUnder(s: Siblings, dir: bytes, off: nat)
    requires dir != []
    ensures forall f <- Files(s, dir, off) :: dir + [BACKSLASH] <= f.path
  {
    hide Head, Block, GoodbyeBlock;
    match s
    case End =>
    case File(name, mode, extra, data, next) =>
      FilesUnder(next, dir, off + |Head(name, mode, extra)| + 16 + |data|);
    case Dir(name, mode, extra, kids, table, next) =>
      var at := off + |Head(name, mode, extra)|;
      FilesUnder(kids, Join(dir, name), at);
      FilesUnder(next, dir, at + |Encode(kids)| + |GoodbyeBlock(table)|);
      forall f <- Files(kids, Join(dir, name), at)
        ensures dir + [BACKSLASH] <= f.path
      {
        assert dir + [BACKSLASH] <= Join(dir, name);
      }
  }

  /** Nothing under a directory that is passed over could have matched an open target. */
  lemma IrrelevantIsUnwanted(g: Goal, s: Siblings, dir: bytes, off: nat)
    requires dir != [] && !DirRelevant(false, g, dir)
    ensures Unwanted(g, Files(s, dir, off))
  {
    hide Files, DirRelevant, LookupTarget, FileKey;
    FilesUnder(s, dir, off);
    forall f <- Files(s, dir, off)
      ensures LookupTarget(g, [FileKey(f)]) == NoTarget
    {
      var rest := f.path[|dir| + 1..];
      assert f.path == dir + [BACKSLASH] + rest;
      NotBelow(g, dir, rest, f);
    }
  }

  lemma NotBelow(g: Goal, dir: bytes, rest: bytes, f: Located)
    requires !DirRelevant(false, g, dir) && f.path == dir + [BACKSLASH] + rest
    ensures LookupTarget(g, [FileKey(f)]) == NoTarget
  {
    hide NormalizeRestorePath, Lower;
    NothingToLower();
    KeyOfChild(dir, rest);
    assert FileKey(f) !in g.targets.Keys;
  }

  lemma NothingToLower()
    ensures Lower([]) == []
  {
  }

  predicate Restored(c: Core, s: Siblings, d: Core) {
    && d.goal == FoldGoal(c.goal, Files(s, CurrentPath(c.pathStack), c.streamOff))
    && d.pathStack == c.pathStack && d.streamOff == c.streamOff + |Encode(s)|
    && !d.indexMode && d.walk == InDir
  }

  /** The parser stands in a directory; if it is skipping, nothing in `s` is wanted. */
  predicate Restoring(c: Core, s: Siblings) {
    && !c.indexMode && Named(c.pathStack) && c.walk == InDir && WellFormed(s)
    && Plain(Files(s, CurrentPath(c.pathStack), c.streamOff))
    && (InSkip(c.pathStack) ==> Unwanted(c.goal, Files(s, CurrentPath(c.pathStack), c.streamOff)))
  }

  lemma RestoreLeaf(c: Core, t: Token, f: Located)
    requires !c.indexMode && t.Leaf? && f.path == ChildPath(c, t.name) && f.data == t.data
    requires !HasDrivePrefix(f.path)
    requires InSkip(c.pathStack) ==> LookupTarget(c.goal, [FileKey(f)]) == NoTarget
    ensures var d := Apply(c, t); var hit := LookupTarget(c.goal, [FileKey(f)]);
      && d.goal == (if hit.Target? then MarkDone(c.goal, hit, t.data) else c.goal)
      && d.pathStack == c.pathStack
  {
    hide Head, CurrentPath, InSkip, LookupTarget, TargetPathKeys, FinishEntry, RecordPayload, MarkDone;
    PlainPathHasOneKey(f.path);
    assert [] + t.data == t.data;
  }

  lemma {:induction false} RestoreTree(c: Core, s: Siblings)
    requires Restoring(c, s)
    ensures Restored(c, s, ApplyAll(c, Tokens(s)))
    decreases s, 1
  {
    hide Apply, ApplyAll, CurrentPath, Head, Block, IsDirMode, InSkip, LookupTarget, MarkDone, FileKey, FoldGoal;
    match s
    case End => NoTokensLeft(c);
    case File(name, mode, extra, data, next) =>
      var t := Leaf(name, mode, extra, data);
      var files := Files(s, CurrentPath(c.pathStack), c.streamOff);
      ApplyOne(c, t, Tokens(next));
      RestoreLeaf(c, t, files[0]);
      ApplyKeeps(c, t);
      LeafBytes(t, []);
      assert TokenBytes(t) + [] == TokenBytes(t);
      var d := Apply(c, t);
      assert files[1..] == Files(next, CurrentPath(c.pathStack), d.streamOff);
      RestoreTree(d, next);
      FoldGoalOne(c.goal, files);
    case Dir(_, _, _, _, _, _) => RestoreDir(c, s);
  }

  lemma NoTokensLeft(c: Core)
    ensures ApplyAll(c, []) == c && FoldGoal(c.goal, []) == c.goal
  {
  }

  lemma FoldGoalOne(g: Goal, files: seq<Located>)
    requires files != []
    ensures var t := LookupTarget(g, [FileKey(files[0])]);
      FoldGoal(g, files) == FoldGoal(if t.Target? then MarkDone(g, t, files[0].data) else g, files[1..])
  {
  }

  lemma SkipOfPush(stack: seq<Frame>, f: Frame)
    ensures InSkip(stack + [f]) <==> InSkip(stack) || f.skip
  {
    assert f in stack + [f];
    assert forall x <- stack :: x in stack + [f];
  }

  /** Inside a directory the same holds of its content. */
  lemma IntoDir(c: Core, s: Siblings)
    requires Restoring(c, s) && s.Dir?
    ensures var d := Apply(c, Enter(s.name, s.mode, s.extra));
      && Restoring(d, s.kids) && d.goal == c.goal && d.streamOff == c.streamOff + |Head(s.name, s.mode, s.extra)|
      && CurrentPath(d.pathStack) == Join(CurrentPath(c.pathStack), s.name)
      && d.pathStack != [] && d.pathStack[..|d.pathStack| - 1] == c.pathStack
  {
    hide Apply, CurrentPath, Head, GoodbyeBlock, IsDirMode, Tokens, InSkip, DirRelevant, LookupTarget, FileKey;
    var enter := Enter(s.name, s.mode, s.extra);
    EnterFacts(c, enter);
    ApplyKeeps(c, enter);
    var d := Apply(c, enter);
    PathOfPush(c.pathStack, d.pathStack[|c.pathStack|]);
    SkipOfPush(c.pathStack, d.pathStack[|c.pathStack|]);
    if InSkip(d.pathStack) && !InSkip(c.pathStack) {
      IrrelevantIsUnwanted(c.goal, s.kids, CurrentPath(d.pathStack), d.streamOff);
    }
  }

  /** The same holds of the rest of the chain, wherever the parser comes out behind the directory. */
  lemma NextIsRestoring(c: Core, s: Siblings, d: Core)
    requires Restoring(c, s) && s.Dir? && !d.indexMode && d.walk == InDir && d.pathStack == c.pathStack
    requires d.streamOff == c.streamOff + |Head(s.name, s.mode, s.extra)| + |Encode(s.kids)| + |GoodbyeBlock(s.table)|
    requires InSkip(c.pathStack) ==> d.goal == c.goal
    ensures Restoring(d, s.next)
    ensures InSkip(c.pathStack) ==> Unwanted(c.goal, Files(s.kids, Join(CurrentPath(c.pathStack), s.name),
                                                           c.streamOff + |Head(s.name, s.mode, s.extra)|))
  {
    hide CurrentPath, Head, GoodbyeBlock, IsDirMode, InSkip, LookupTarget, FileKey, Encode, Join, HasDrivePrefix;
  }

  /** Behind a directory its files have been served and the rest of the chain begins. */
  lemma OutOfDir(c: Core, s: Siblings, inside: Core)
    requires Restoring(c, s) && s.Dir?
    requires Restored(Apply(c, Enter(s.name, s.mode, s.extra)), s.kids, inside)
    ensures var kids := Files(s.kids, Join(CurrentPath(c.pathStack), s.name),
                              c.streamOff + |Head(s.name, s.mode, s.extra)|);
      var d := Apply(inside, Leave(s.table));
      && Restoring(d, s.next) && d.goal == FoldGoal(c.goal, kids) && d.pathStack == c.pathStack
      && d.streamOff == c.streamOff + |Head(s.name, s.mode, s.extra)| + |Encode(s.kids)| + |GoodbyeBlock(s.table)|
  {
    hide Apply, CurrentPath, Head, GoodbyeBlock, Tokens, InSkip, FoldGoal, Restoring, Files, Join, Encode;
    var leave := Leave(s.table);
    IntoDir(c, s);
    LeaveFacts(inside, leave);
    ApplyKeeps(inside, leave);
    assert !c.indexMode by { NotIndexing(c, s); }
    var kids := Files(s.kids, Join(CurrentPath(c.pathStack), s.name),
                      c.streamOff + |Head(s.name, s.mode, s.extra)|);
    var d := Apply(inside, leave);
    if InSkip(c.pathStack) {
      NextIsRestoring(c, s, d.(goal := c.goal));
      FoldUnwanted(c.goal, kids);
    }
    NextIsRestoring(c, s, d);
  }

  lemma NotIndexing(c: Core, s: Siblings)
    requires Restoring(c, s)
    ensures !c.indexMode
  {
  }

  lemma {:induction false} RestoreDir(c: Core, s: Siblings)
    requires Restoring(c, s) && s.Dir?
    ensures Restored(c, s, ApplyAll(c, Tokens(s)))
    decreases s, 0
  {
    hide Apply, ApplyAll, CurrentPath, Head, GoodbyeBlock, IsDirMode, Tokens, InSkip, DirRelevant, LookupTarget,
         MarkDone, FileKey, FoldGoal;
    DirCourse(c, s);
    IntoDir(c, s);
    var c1 := Apply(c, Enter(s.name, s.mode, s.extra));
    RestoreTree(c1, s.kids);
    var c2 := ApplyAll(c1, Tokens(s.kids));
    OutOfDir(c, s, c2);
    var c3 := Apply(c2, Leave(s.table));
    RestoreTree(c3, s.next);
    FoldGoalAppend(c.goal, Files(s.kids, CurrentPath(c1.pathStack), c1.streamOff),
                   Files(s.next, CurrentPath(c.pathStack), c3.streamOff));
  }

  lemma RestoreArchive(c: Core, a: Archive)
    requires WellFormedArchive(a) && Plain(ArchiveFiles(a))
    requires !c.indexMode && c.pathStack == [] && c.walk == RootEntry && c.streamOff == 0
    ensures ApplyAll(c, ArchiveTokens(a)).goal == FoldGoal(c.goal, ArchiveFiles(a))
  {
    hide Apply, ApplyAll, EntryBlock, GoodbyeBlock, IsDirMode, WellFormed, Files, FoldGoal, Plain;
    var root, leave := Root(a.mode, a.extra), Leave(a.table);
    ApplyOne(c, root, Tokens(a.kids) + [leave]);
    RootFacts(c, root);
    ApplyKeeps(c, root);
    var c1 := Apply(c, root);
    ApplyAllAppend(c1, Tokens(a.kids), [leave]);
    RestoreTree(c1, a.kids);
    var c2 := ApplyAll(c1, Tokens(a.kids));
    ApplyOne(c2, leave, []);
    assert [leave] + [] == [leave];
    NoTokens(Apply(c2, leave));
    LastLeave(c2, leave);
  }
}
