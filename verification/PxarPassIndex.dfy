/** The index a selective restore records on its way: what later restores by position rely on. */
module PxarPassIndex {
  import opened Bytes
  import opened PxarFormat
  import opened Paths
  import opened PxarStreamSpec
  import opened PxarTokens
  import opened PxarRows
  import opened PxarTrees
  import opened PxarIndexTheorem
  import opened PxarRestoreTheorem
  import opened PxarServed
  import opened PxarRestoreExact

  /** A file is filed under its own path, or under that of the target it was given to. */
  function FiledAs(g: Goal, f: Located): bytes {
    var t := LookupTarget(g, [FileKey(f)]);
    if t.Target? then t.filePath else f.path
  }

  function OneMore(g: Goal, f: Located): Goal {
    var t := LookupTarget(g, [FileKey(f)]);
    if t.Target? then MarkDone(g, t, f.data) else g
  }

  /** The index after these files went by; without a path, or without being asked, nothing is filed. */
  function PassIndex(index: map<bytes, FilePos>, on: bool, g: Goal, files: seq<Located>): map<bytes, FilePos>
    decreases |files|
  {
    if files == [] then index else
      var f := files[0];
      PassIndex(RecordPayload(index, on, FiledAs(g, f), f.pos.offset, f.pos.size), on, OneMore(g, f), files[1..])
  }

  lemma {:induction false} PassIndexAppend(index: map<bytes, FilePos>, on: bool, g: Goal, a: seq<Located>,
                                           b: seq<Located>)
    ensures PassIndex(index, on, g, a + b) == PassIndex(PassIndex(index, on, g, a), on, FoldGoal(g, a), b)
    decreases |a|
  {
    hide RecordPayload, FiledAs, LookupTarget, MarkDone, FileKey;
    if a == [] {
      assert a + b == b;
    } else {
      var f := a[0];
      assert (a + b)[0] == f && (a + b)[1..] == a[1..] + b;
      PassIndexAppend(RecordPayload(index, on, FiledAs(g, f), f.pos.offset, f.pos.size), on, OneMore(g, f), a[1..], b);
    }
  }

  lemma PassNothing(index: map<bytes, FilePos>, on: bool, g: Goal)
    ensures PassIndex(index, on, g, []) == index && FoldGoal(g, []) == g
  {
  }

  lemma PassFirst(index: map<bytes, FilePos>, on: bool, g: Goal, f: Located, more: seq<Located>)
    ensures PassIndex(index, on, g, [f] + more)
         == PassIndex(RecordPayload(index, on, FiledAs(g, f), f.pos.offset, f.pos.size), on, OneMore(g, f), more)
  {
    hide RecordPayload, FiledAs, OneMore;
    assert ([f] + more)[1..] == more;
  }

  /** A file's token files it. */
  lemma LeafFiled(c: Core, t: Token, f: Located)
    requires !c.indexMode && t.Leaf? && f.path == ChildPath(c, t.name) && !HasDrivePrefix(f.path)
    requires f.pos.offset == c.streamOff + |Head(t.name, t.mode, t.extra)| && f.pos.size == |t.data|
    requires InSkip(c.pathStack) ==> LookupTarget(c.goal, [FileKey(f)]) == NoTarget
    ensures Apply(c, t).index == RecordPayload(c.index, c.recordIndex, FiledAs(c.goal, f), f.pos.offset, f.pos.size)
  {
    hide Head, CurrentPath, InSkip, LookupTarget, TargetPathKeys, FinishEntry, RecordPayload, MarkDone;
    PlainPathHasOneKey(f.path);
  }

  /** After the tokens up to `k`, the index is as if the files up to there had been filed one by one. */
  predicate FiledUpTo(c: Core, s: Siblings, k: nat) {
    ApplyAll(c, TokensBy(Tokens(s), k)).index
    == PassIndex(c.index, c.recordIndex, c.goal,
                 FilesBy(Files(s, CurrentPath(c.pathStack), c.streamOff), c.streamOff + k))
  }

  lemma {:induction false} IndexOfPrefix(c: Core, s: Siblings, k: nat)
    requires Restoring(c, s)
    ensures FiledUpTo(c, s, k)
    decreases s, 1
  {
    hide Apply, ApplyAll, CurrentPath, Head, Block, IsDirMode, InSkip, LookupTarget, FileKey, PassIndex, TokensBy,
         FilesBy;
    match s
    case End =>
      NoTokens(c);
      PassNothing(c.index, c.recordIndex, c.goal);
      NothingBy(k, c.streamOff + k);
    case File(_, _, _, _, _) => IndexOfFile(c, s, k);
    case Dir(_, _, _, _, _, _) => IndexOfDir(c, s, k);
  }

  lemma FileFiled(c: Core, s: Siblings)
    requires Restoring(c, s) && s.File?
    ensures var t := Leaf(s.name, s.mode, s.extra, s.data);
      var f, d := Files(s, CurrentPath(c.pathStack), c.streamOff)[0], Apply(c, t);
      && d.index == RecordPayload(c.index, c.recordIndex, FiledAs(c.goal, f), f.pos.offset, f.pos.size)
      && d.recordIndex == c.recordIndex && d.goal == OneMore(c.goal, f)
  {
    hide Apply, CurrentPath, Head, IsDirMode, InSkip, LookupTarget, MarkDone, FileKey, Encode, Join, HasDrivePrefix,
         RecordPayload, FiledAs;
    var t := Leaf(s.name, s.mode, s.extra, s.data);
    var f := Files(s, CurrentPath(c.pathStack), c.streamOff)[0];
    JoinIsChild(c, s.name);
    PastFile(c, s);
    ApplyKeeps(c, t);
    LeafFiled(c, t, f);
  }

  lemma {:induction false} IndexOfFile(c: Core, s: Siblings, k: nat)
    requires Restoring(c, s) && s.File?
    ensures FiledUpTo(c, s, k)
    decreases s, 0
  {
    hide Apply, ApplyAll, CurrentPath, Head, IsDirMode, InSkip, LookupTarget, MarkDone, FileKey, PassIndex, TokensBy,
         FilesBy, Encode, Restoring, Files, Tokens, TokenBytes, RecordPayload, FiledAs, OneMore;
    var t := Leaf(s.name, s.mode, s.extra, s.data);
    var dir, e := CurrentPath(c.pathStack), c.streamOff + k;
    var size := |Head(s.name, s.mode, s.extra)| + 16 + |s.data|;
    PastFile(c, s);
    FilesOfFile(s, dir, c.streamOff, e);
    FileFiled(c, s);
    var f, more := Files(s, dir, c.streamOff)[0], FilesBy(Files(s.next, dir, c.streamOff + size), e);
    TokensByOne(t, Tokens(s.next), k);
    if k < size {
      FilesOutside(s.next, dir, c.streamOff + size, e);
      NoTokens(c);
      PassNothing(c.index, c.recordIndex, c.goal);
      assert [] + more == [];
    } else {
      IndexOfPrefix(Apply(c, t), s.next, k - size);
      ApplyOne(c, t, TokensBy(Tokens(s.next), k - size));
      PassFirst(c.index, c.recordIndex, c.goal, f, more);
    }
  }

  /** The whole content of a directory, and that the flag to record stays. */
  lemma {:induction false} IndexOfKids(c: Core, s: Siblings)
    requires Restoring(c, s) && FiledUpTo(c, s, |Encode(s)|)
    ensures ApplyAll(c, Tokens(s)).index
         == PassIndex(c.index, c.recordIndex, c.goal, Files(s, CurrentPath(c.pathStack), c.streamOff))
  {
    hide ApplyAll, CurrentPath, PassIndex, TokensBy, FilesBy, Encode, Files, Tokens, Row;
    RowOfTree(s);
    AllBy(Tokens(s), |Encode(s)|);
    FilesOutside(s, CurrentPath(c.pathStack), c.streamOff, c.streamOff + |Encode(s)|);
  }

  lemma {:induction false} FlagStays(c: Core, toks: seq<Token>)
    ensures ApplyAll(c, toks).recordIndex == c.recordIndex
    decreases |toks|
  {
    hide Apply;
    if toks != [] {
      ApplyKeeps(c, toks[0]);
      FlagStays(Apply(c, toks[0]), toks[1..]);
    }
  }

  lemma {:induction false} IndexOfDir(c: Core, s: Siblings, k: nat)
    requires Restoring(c, s) && s.Dir?
    ensures FiledUpTo(c, s, k)
    decreases s, 0
  {
    hide Apply, ApplyAll, CurrentPath, Head, GoodbyeBlock, IsDirMode, InSkip, LookupTarget, MarkDone, FileKey, FoldGoal,
         TokensBy, FilesBy, Encode, Restoring, PassIndex;
    var enter, leave := Enter(s.name, s.mode, s.extra), Leave(s.table);
    var dir, off := CurrentPath(c.pathStack), c.streamOff;
    var h, n, g := |Head(s.name, s.mode, s.extra)|, |Encode(s.kids)|, |GoodbyeBlock(s.table)|;
    var kids, next := Files(s.kids, Join(dir, s.name), off + h), Files(s.next, dir, off + h + n + g);
    FilesByAppend(kids, next, off + k);
    TokensOfDir(s, k);
    IntoDir(c, s);
    EnterFacts(c, enter);
    if k < h + n + g { FilesOutside(s.next, dir, off + h + n + g, off + k); }
    if k < h {
      FilesOutside(s.kids, Join(dir, s.name), off + h, off + k);
      NoTokens(c);
      PassNothing(c.index, c.recordIndex, c.goal);
    } else if k < h + n + g {
      ApplyOne(c, enter, TokensBy(Tokens(s.kids), k - h));
      IndexOfPrefix(Apply(c, enter), s.kids, k - h);
      assert FilesBy(kids, off + k) + [] == FilesBy(kids, off + k);
    } else {
      var c1 := Apply(c, enter);
      IndexOfPrefix(c1, s.kids, n);
      IndexOfKids(c1, s.kids);
      RestoreTree(c1, s.kids);
      FlagStays(c1, Tokens(s.kids));
      var c2 := ApplyAll(c1, Tokens(s.kids));
      OutOfDir(c, s, c2);
      LeaveFacts(c2, leave);
      IndexOfPrefix(Apply(c2, leave), s.next, k - h - n - g);
      FilesOutside(s.kids, Join(dir, s.name), off + h, off + k);
      PassIndexAppend(c.index, c.recordIndex, c.goal, kids, FilesBy(next, off + k));
      var more := TokensBy(Tokens(s.next), k - h - n - g);
      ApplyOne(c, enter, Tokens(s.kids) + ([leave] + more));
      ApplyAllAppend(c1, Tokens(s.kids), [leave] + more);
      ApplyOne(c2, leave, more);
    }
  }

  /** After any prefix of an archive the index is that of the files that end in it. */
  lemma IndexOfArchive(c: Core, a: Archive, k: nat)
    requires WellFormedArchive(a) && Plain(ArchiveFiles(a))
    requires !c.indexMode && c.pathStack == [] && c.walk == RootEntry && c.streamOff == 0
    ensures ApplyAll(c, TokensBy(ArchiveTokens(a), k)).index
         == PassIndex(c.index, c.recordIndex, c.goal, FilesBy(ArchiveFiles(a), k))
  {
    hide Apply, ApplyAll, EntryBlock, GoodbyeBlock, IsDirMode, WellFormed, Files, PassIndex, Plain, TokensBy, FilesBy,
         Row, Encode;
    var root, leave := Root(a.mode, a.extra), Leave(a.table);
    var h, n := |EntryBlock(a.mode, a.extra)|, |Encode(a.kids)|;
    TokensByOne(root, Tokens(a.kids) + [leave], k);
    if k < h {
      FilesOutside(a.kids, [], h, k);
      NoTokens(c);
      PassNothing(c.index, c.recordIndex, c.goal);
    } else {
      RowOfTree(a.kids);
      RootFacts(c, root);
      ApplyKeeps(c, root);
      var c1 := Apply(c, root);
      var upTo := TokensBy(Tokens(a.kids) + [leave], k - h);
      ApplyOne(c, root, upTo);
      TokensByAppend(Tokens(a.kids), [leave], k - h);
      IndexOfPrefix(c1, a.kids, k - h);
      if k >= h + n {
        AllBy(Tokens(a.kids), k - h);
        var rest := TokensBy([leave], k - h - n);
        ApplyAllAppend(c1, Tokens(a.kids), rest);
        LeaveFilesNothing(ApplyAll(c1, Tokens(a.kids)), leave, k - h - n);
      }
    }
  }

  lemma LeaveFilesNothing(c: Core, leave: Token, k: nat)
    requires leave.Leave?
    ensures ApplyAll(c, TokensBy([leave], k)).index == c.index
  {
    hide TokenBytes, GoodbyeBlock;
    TokensByOne(leave, [], k);
    assert [leave] + [] == [leave];
    NothingBy(if k >= |TokenBytes(leave)| then k - |TokenBytes(leave)| else 0, 0);
    ApplyOne(c, leave, []);
    NoTokens(c);
    NoTokens(Apply(c, leave));
  }

  // What the index says.

  /** The key is one of the file's own, or of a target the file matches. */
  predicate KeyFor(k: bytes, f: Located, wanted: seq<Target>) {
    k in TargetPathKeys(f.path)
    || exists t <- wanted ::
         t.Target? && k in TargetPathKeys(t.filePath) && FileKey(f) in TargetPathKeys(t.filePath)
  }

  /** Every entry says where a file of its key lies, and how long it is. */
  ghost predicate LeadsToFiles(index: map<bytes, FilePos>, files: seq<Located>, wanted: seq<Target>) {
    forall k <- index :: exists f <- files ::
      index[k] == FilePos(f.pos.offset, f.pos.size, 0, 0) && KeyFor(k, f, wanted)
  }

  lemma FiledForKey(g: Goal, f: Located, wanted: seq<Target>)
    requires Keyed(g, wanted)
    ensures forall k <- TargetPathKeys(FiledAs(g, f)) :: KeyFor(k, f, wanted)
  {
    hide TargetPathKeys, FileKey;
    var t := LookupTarget(g, [FileKey(f)]);
    if t.Target? {
      HitIsKeyed(g, FileKey(f));
      assert t in wanted && FileKey(f) in TargetPathKeys(t.filePath);
    }
  }

  lemma HitIsKeyed(g: Goal, k: bytes)
    ensures var t := LookupTarget(g, [k]); t.Target? ==> k in g.targets && g.targets[k] == t
  {
    assert [k][1..] == [];
    assert LookupTarget(g, []) == NoTarget;
  }

  lemma OfferKeepsKeyed(g: Goal, f: Located, wanted: seq<Target>)
    requires GoodRequest(wanted) && Keyed(g, wanted)
    ensures Keyed(OneMore(g, f), wanted)
  {
    hide GoodRequest, Keyed, FileKey, MarkDone, LookupTarget;
    var t := LookupTarget(g, [FileKey(f)]);
    if t.Target? {
      LookupFindsOpen(g, wanted, [FileKey(f)]);
      MarkKeeps(g, wanted, t, f.data);
    }
  }

  lemma {:induction false} PassLeads(index: map<bytes, FilePos>, on: bool, g: Goal, some: seq<Located>,
                                     files: seq<Located>, wanted: seq<Target>)
    requires GoodRequest(wanted) && Keyed(g, wanted) && LeadsToFiles(index, files, wanted)
    requires forall f <- some :: f in files
    ensures LeadsToFiles(PassIndex(index, on, g, some), files, wanted)
    decreases |some|
  {
    hide KeyFor, FiledAs, Keyed, GoodRequest, OneMore, TargetPathKeys;
    if some != [] {
      var f := some[0];
      FiledForKey(g, f, wanted);
      OfferKeepsKeyed(g, f, wanted);
      PassLeads(RecordPayload(index, on, FiledAs(g, f), f.pos.offset, f.pos.size), on, OneMore(g, f), some[1..], files,
                wanted);
    }
  }

  lemma {:induction false} FilesByAreFiles(files: seq<Located>, e: nat)
    ensures forall f <- FilesBy(files, e) :: f in files
    decreases |files|
  {
    if files != [] {
      FilesByAreFiles(files[1..], e);
    }
  }

  /** Tokens up to some number of them are the tokens up to some position. */
  lemma {:induction false} TokensUpTo(toks: seq<Token>, j: nat)
    requires j <= |toks|
    ensures TokensBy(toks, |Row(toks[..j])|) == toks[..j]
    decreases |toks|
  {
    hide TokenBytes, Row;
    var pre := toks[..j];
    assert toks == pre + toks[j..];
    TokensByAppend(pre, toks[j..], |Row(pre)|);
    NoMoreBy(toks[j..]);
    assert pre + [] == pre;
  }

  lemma NoMoreBy(toks: seq<Token>)
    ensures TokensBy(toks, 0) == []
  {
  }

  /** The index after the files of an archive that end by `e` leads to files of the archive. */
  lemma PassedLeads(a: Archive, wanted: seq<Target>, e: nat)
    requires GoodRequest(wanted)
    ensures var files := ArchiveFiles(a);
      LeadsToFiles(PassIndex(map[], true, Restorer(wanted, true).goal, FilesBy(files, e)), files, wanted)
  {
    hide Keyed, ArchiveFiles, FilesBy, PassIndex, KeyFor, TargetMap;
    StartsKeyed(wanted, true);
    FilesByAreFiles(ArchiveFiles(a), e);
    PassLeads(map[], true, Restorer(wanted, true).goal, FilesBy(ArchiveFiles(a), e), ArchiveFiles(a), wanted);
  }

  /**
   The index that a selective restore leaves behind, however the chunks were cut: every entry says where a file of its
   key lies in the archive. Unless the restore stopped early, it is that of one pass over all files.
   */
  lemma PassIndexIsExact(a: Archive, wanted: seq<Target>, pieces: seq<bytes>)
    requires WellFormedArchive(a) && |EncodeArchive(a)| <= MAX_INT && Flatten(pieces) == EncodeArchive(a)
    requires GoodRequest(wanted) && wanted != [] && Plain(ArchiveFiles(a))
    ensures var r, files := FeedAll(Parser(Restorer(wanted, true), []), pieces), ArchiveFiles(a);
      var goal := Restorer(wanted, true).goal;
      && (r.Done? || r.Quiet? ==> LeadsToFiles(r.p.core.index, files, wanted))
      && (r.Quiet? ==> r.p.core.index == PassIndex(map[], true, goal, files))
      && (r.Done? ==> exists e: nat :: r.p.core.index == PassIndex(map[], true, goal, FilesBy(files, e)))
  {
    hide Apply, ApplyAll, InWindow, Drain, FeedAll, Row, ArchiveTokens, EncodeArchive, Readable, WellFormedArchive,
         ArchiveFiles, Flatten, Plain, PassIndex, FilesBy, TokensBy, TargetMap, CutsClean, TornTooSoon, LeadsToFiles,
         AllServed, Delivered, SharesKey;
    var c, toks := Restorer(wanted, true), ArchiveTokens(a);
    RowOfArchive(a);
    ArchiveIsReadable(a);
    NothingToDo(c);
    assert pieces[..0] == [] && pieces[0..] == pieces;
    assert Flatten(pieces[..0]) == [] by { EmptyFlatten(); }
    FeedFrom(c, toks, pieces, 0, Parser(c, []));
    RestoreIsExact(a, wanted, true, pieces);
    CleanOnTree(a, wanted, true, pieces);
    var r := FeedAll(Parser(c, []), pieces);
    if CutsClean(c, toks, pieces, 0) {
      var e := if r.Done? then StoppedAt(c, toks, r.p.core) else |EncodeArchive(a)|;
      IndexOfArchive(c, a, e);
      PassedLeads(a, wanted, e);
      AllBy(toks, |EncodeArchive(a)|);
      AllFilesBy(a);
    }
  }

  lemma AllFilesBy(a: Archive)
    ensures FilesBy(ArchiveFiles(a), |EncodeArchive(a)|) == ArchiveFiles(a)
  {
    hide ArchiveFiles, EncodeArchive;
    AllEndInside(a);
    FilesByAll(ArchiveFiles(a), |EncodeArchive(a)|);
  }

  /** How far into the row an early stop came. */
  ghost function StoppedAt(c: Core, toks: seq<Token>, q: Core): (e: nat)
    requires FinishedEarly(c, toks, q)
    ensures q == ApplyAll(c, TokensBy(toks, e))
  {
    hide Apply, ApplyAll, Row, TokensBy;
    var j :| 0 <= j <= |toks| && q == ApplyAll(c, toks[..j]);
    TokensUpTo(toks, j);
    |Row(toks[..j])|
  }
}
