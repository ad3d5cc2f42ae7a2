/** Which targets a streaming restore serves, and with what: exactly, for any request and any cut. */
module PxarRestoreExact {
  import opened Bytes
  import opened PxarFormat
  import opened Paths
  import opened PxarStreamSpec
  import opened PxarTokens
  import opened PxarRows
  import opened PxarTrees
  import opened PxarIndexTheorem
  import opened PxarRestoreTheorem
  import opened PxarServed

  predicate AllTargets(wanted: seq<Target>) {
    forall t <- wanted :: t.Target?
  }

  /** Different targets have different identities and share no key. */
  predicate GoodRequest(wanted: seq<Target>) {
    && AllTargets(wanted)
    && (forall i, j :: 0 <= i < j < |wanted| ==>
          wanted[i].id != wanted[j].id && !SharesKey(wanted[i].filePath, wanted[j].filePath))
  }

  lemma Apart(wanted: seq<Target>, s: Target, t: Target)
    requires GoodRequest(wanted) && s in wanted && t in wanted && s != t
    requires s.Target? && t.Target?
    ensures s.id != t.id
    ensures forall k <- TargetPathKeys(s.filePath) :: k !in TargetPathKeys(t.filePath)
  {
    hide TargetPathKeys;
    var i :| 0 <= i < |wanted| && wanted[i] == s;
    var j :| 0 <= j < |wanted| && wanted[j] == t;
    if i < j {
      assert !SharesKey(s.filePath, t.filePath);
    } else {
      assert !SharesKey(t.filePath, s.filePath);
    }
  }

  /** The target map holds exactly the keys of the targets still open. */
  ghost predicate Keyed(g: Goal, wanted: seq<Target>) {
    && AllTargets(wanted)
    && (forall k <- g.targets ::
          g.targets[k] in wanted && g.targets[k].id !in g.restored && k in TargetPathKeys(g.targets[k].filePath))
    && (forall t, k | t in wanted && k in TargetPathKeys(t.filePath) :: t.id !in g.restored ==> k in g.targets)
    && g.pending + |g.restored| == |wanted|
    && (forall i <- g.restored :: exists t <- wanted :: t.id == i)
  }

  lemma KeyOwner(g: Goal, wanted: seq<Target>, t: Target, k: bytes)
    requires GoodRequest(wanted) && Keyed(g, wanted)
    requires t in wanted && t.Target? && k in TargetPathKeys(t.filePath) && t.id !in g.restored
    ensures k in g.targets && g.targets[k] == t
  {
    hide TargetPathKeys, GoodRequest;
    if g.targets[k] != t {
      Apart(wanted, t, g.targets[k]);
    }
  }

  lemma {:induction false} TargetMapHolds(wanted: seq<Target>, n: nat)
    requires GoodRequest(wanted) && n <= |wanted|
    ensures forall k <- TargetMap(wanted[..n]) ::
      TargetMap(wanted[..n])[k] in wanted[..n] && k in TargetPathKeys(TargetMap(wanted[..n])[k].filePath)
    ensures forall t, k | t in wanted[..n] && k in TargetPathKeys(t.filePath) :: k in TargetMap(wanted[..n])
  {
    hide TargetPathKeys;
    if n > 0 {
      TargetMapHolds(wanted, n - 1);
      assert wanted[..n][..n - 1] == wanted[..n - 1];
      assert wanted[..n] == wanted[..n - 1] + [wanted[n - 1]];
    }
  }

  lemma StartsKeyed(wanted: seq<Target>, recording: bool)
    requires GoodRequest(wanted)
    ensures Keyed(Restorer(wanted, recording).goal, wanted)
  {
    hide TargetPathKeys, TargetMap;
    TargetMapHolds(wanted, |wanted|);
    assert wanted[..|wanted|] == wanted;
  }

  lemma MarkKeeps(g: Goal, wanted: seq<Target>, t: Target, data: bytes)
    requires GoodRequest(wanted) && Keyed(g, wanted) && t in wanted && t.Target? && t.id !in g.restored
    ensures Keyed(MarkDone(g, t, data), wanted)
    ensures MarkDone(g, t, data).restored == g.restored[t.id := data]
  {
    hide TargetPathKeys, GoodRequest;
    var h := MarkDone(g, t, data);
    forall k <- h.targets
      ensures h.targets[k].id !in h.restored
    {
      Apart(wanted, h.targets[k], t);
    }
    forall s, k | s in wanted && k in TargetPathKeys(s.filePath) && s.id !in h.restored
      ensures k in h.targets
    {
      KeyOwner(g, wanted, s, k);
    }
  }

  lemma {:induction false} LookupFindsOpen(g: Goal, wanted: seq<Target>, keys: seq<bytes>)
    requires Keyed(g, wanted) && LookupTarget(g, keys).Target?
    ensures LookupTarget(g, keys) in wanted && LookupTarget(g, keys).id !in g.restored
    decreases |keys|
  {
    hide TargetPathKeys;
    if !(keys[0] in g.targets) {
      LookupFindsOpen(g, wanted, keys[1..]);
    }
  }

  /** The files of the archive whose path is one of the target's keys, in stream order. */
  function Matching(files: seq<Located>, t: Target): seq<Located>
    requires t.Target?
  {
    if files == [] then []
    else if FileKey(files[0]) in TargetPathKeys(t.filePath) then [files[0]] + Matching(files[1..], t)
    else Matching(files[1..], t)
  }

  ghost predicate ServedBy(g: Goal, files: seq<Located>, t: Target, h: Goal)
    requires t.Target?
  {
    if t.id in g.restored then t.id in h.restored && h.restored[t.id] == g.restored[t.id]
    else if Matching(files, t) == [] then t.id !in h.restored
    else t.id in h.restored && h.restored[t.id] == Matching(files, t)[0].data
  }

  /** One file: its owner, if still open, gets it; nobody else notices. */
  lemma FoldOneFile(g: Goal, f: Located, wanted: seq<Target>, t: Target)
    requires GoodRequest(wanted) && Keyed(g, wanted) && t in wanted && t.Target?
    ensures var s := LookupTarget(g, [FileKey(f)]);
      var g' := if s.Target? then MarkDone(g, s, f.data) else g;
      && Keyed(g', wanted)
      && (if t.id !in g.restored && FileKey(f) in TargetPathKeys(t.filePath)
          then t.id in g'.restored && g'.restored[t.id] == f.data
          else (t.id in g'.restored <==> t.id in g.restored)
               && (t.id in g.restored ==> g'.restored[t.id] == g.restored[t.id]))
  {
    hide TargetPathKeys, GoodRequest, FileKey, MarkDone;
    var key := FileKey(f);
    var s := LookupTarget(g, [key]);
    if t.id !in g.restored && key in TargetPathKeys(t.filePath) {
      KeyOwner(g, wanted, t, key);
      assert s == t;
    }
    if s.Target? {
      LookupFindsOpen(g, wanted, [key]);
      MarkKeeps(g, wanted, s, f.data);
      if s != t {
        Apart(wanted, s, t);
      }
    }
  }

  lemma {:induction false} FoldServes(g: Goal, files: seq<Located>, wanted: seq<Target>, t: Target)
    requires GoodRequest(wanted) && Keyed(g, wanted) && t in wanted && t.Target?
    ensures Keyed(FoldGoal(g, files), wanted) && ServedBy(g, files, t, FoldGoal(g, files))
    decreases |files|
  {
    hide TargetPathKeys, GoodRequest, FileKey, MarkDone, Keyed, LookupTarget;
    if files != [] {
      FoldOneFile(g, files[0], wanted, t);
      var s := LookupTarget(g, [FileKey(files[0])]);
      FoldServes(if s.Target? then MarkDone(g, s, files[0].data) else g, files[1..], wanted, t);
    }
  }

  // Early stop.

  function Ids(wanted: seq<Target>): set<nat>
    requires AllTargets(wanted)
  {
    set t <- wanted :: t.id
  }

  lemma {:induction false} CountIds(wanted: seq<Target>)
    requires GoodRequest(wanted)
    ensures |Ids(wanted)| == |wanted|
  {
    hide TargetPathKeys;
    if wanted != [] {
      var n := |wanted| - 1;
      CountIds(wanted[..n]);
      assert wanted == wanted[..n] + [wanted[n]];
      assert Ids(wanted) == Ids(wanted[..n]) + {wanted[n].id};
      assert wanted[n].id !in Ids(wanted[..n]);
    }
  }

  lemma SubsetOfSameSize<T>(a: set<T>, b: set<T>)
    requires a <= b && |a| == |b|
    ensures a == b
  {
    var extra := b - a;
    assert b == a + extra && |b| == |a| + |extra|;
  }

  lemma CountSubset<T>(a: set<T>, b: set<T>)
    requires a <= b
    ensures |a| <= |b|
  {
    assert b == a + (b - a) && |b| == |a| + |b - a|;
  }

  /** Nothing is pending exactly when every target has been restored. */
  lemma PendingCounts(g: Goal, wanted: seq<Target>)
    requires GoodRequest(wanted) && Keyed(g, wanted)
    ensures g.pending == 0 <==> forall t <- wanted :: t.id in g.restored
    ensures g.pending >= 0 && (g.pending == 0 ==> g.targets == map[])
  {
    hide TargetPathKeys;
    CountIds(wanted);
    assert g.restored.Keys <= Ids(wanted);
    assert |g.restored| == |g.restored.Keys|;
    CountSubset(g.restored.Keys, Ids(wanted));
    if g.pending == 0 {
      SubsetOfSameSize(g.restored.Keys, Ids(wanted));
      assert forall t <- wanted :: t.id in Ids(wanted);
    }
    if forall t <- wanted :: t.id in g.restored {
      assert Ids(wanted) <= g.restored.Keys;
      assert Ids(wanted) == g.restored.Keys;
    }
  }

  lemma ApplyKeepsKeyed(c: Core, t: Token, wanted: seq<Target>)
    requires GoodRequest(wanted) && Keyed(c.goal, wanted) && !c.indexMode
    ensures Keyed(Apply(c, t).goal, wanted)
    ensures c.goal.targets == map[] ==> Apply(c, t).goal == c.goal
  {
    hide Head, GoodbyeBlock, EntryBlock, CurrentPath, InSkip, DirRelevant, LookupTarget, TargetPathKeys, FinishEntry,
         RecordPayload, MarkDone, GoodRequest, Keyed;
    if t.Leaf? {
      var keys := TargetPathKeys(ChildPath(c, t.name));
      var s := LookupTarget(c.goal, keys);
      if c.goal.targets == map[] {
        NoTargets(c.goal, keys);
      }
      if s.Target? {
        LookupFindsOpen(c.goal, wanted, keys);
        MarkKeeps(c.goal, wanted, s, [] + t.data);
      }
    }
  }

  lemma {:induction false} RunKeepsKeyed(c: Core, toks: seq<Token>, wanted: seq<Target>)
    requires GoodRequest(wanted) && Keyed(c.goal, wanted) && !c.indexMode
    ensures Keyed(ApplyAll(c, toks).goal, wanted)
    ensures c.goal.targets == map[] ==> ApplyAll(c, toks).goal == c.goal
    ensures !ApplyAll(c, toks).indexMode
    decreases |toks|
  {
    hide Apply, GoodRequest, Keyed;
    if toks != [] {
      ApplyKeeps(c, toks[0]);
      ApplyKeepsKeyed(c, toks[0], wanted);
      RunKeepsKeyed(Apply(c, toks[0]), toks[1..], wanted);
    }
  }

  /** Stopping once every target is served loses nothing the rest of the stream could have added. */
  lemma EarlyStopLosesNothing(c: Core, toks: seq<Token>, wanted: seq<Target>, q: Core)
    requires GoodRequest(wanted) && Keyed(c.goal, wanted) && !c.indexMode
    requires FinishedEarly(c, toks, q)
    ensures q.goal == ApplyAll(c, toks).goal
  {
    hide Apply, ApplyAll, GoodRequest, Keyed;
    var j :| 0 <= j <= |toks| && q == ApplyAll(c, toks[..j]);
    RunKeepsKeyed(c, toks[..j], wanted);
    PendingCounts(q.goal, wanted);
    assert toks == toks[..j] + toks[j..];
    ApplyAllAppend(c, toks[..j], toks[j..]);
    RunKeepsKeyed(q, toks[j..], wanted);
  }

  // How soon all is served.

  /** Each target has a matching file whose payload ends at stream position `e` or before. */
  predicate AllServed(files: seq<Located>, wanted: seq<Target>, e: nat)
    requires AllTargets(wanted)
  {
    forall t <- wanted :: exists f <- files :: FileKey(f) in TargetPathKeys(t.filePath) && f.pos.entryEnd <= e
  }

  lemma {:induction false} MatchingBy(files: seq<Located>, t: Target, e: nat)
    requires t.Target?
    ensures Matching(FilesBy(files, e), t) != []
       <==> exists f <- files :: FileKey(f) in TargetPathKeys(t.filePath) && f.pos.entryEnd <= e
  {
    hide FileKey, TargetPathKeys;
    if files != [] {
      MatchingBy(files[1..], t, e);
      assert files == [files[0]] + files[1..];
      var rest := FilesBy(files[1..], e);
      assert ([files[0]] + rest)[1..] == rest && [] + rest == rest;
    }
  }

  /** Once all targets are restored they stay so, whatever tokens follow. */
  lemma {:induction false} ServedIsDone(c: Core, toks: seq<Token>, k: nat, wanted: seq<Target>)
    requires GoodRequest(wanted) && Keyed(c.goal, wanted) && !c.indexMode && !AllDone(c)
    ensures Served(c, toks, k) <==> ApplyAll(c, TokensBy(toks, k)).goal.pending == 0
    decreases |toks|
  {
    hide Apply, GoodRequest, Keyed, TokenBytes;
    if toks != [] && |TokenBytes(toks[0])| <= k {
      var d, rest, l := Apply(c, toks[0]), toks[1..], k - |TokenBytes(toks[0])|;
      ApplyKeeps(c, toks[0]);
      ApplyKeepsKeyed(c, toks[0], wanted);
      ApplyOne(c, toks[0], TokensBy(rest, l));
      if AllDone(d) {
        PendingCounts(d.goal, wanted);
        RunKeepsKeyed(d, TokensBy(rest, l), wanted);
      } else {
        ServedIsDone(d, rest, l, wanted);
      }
    }
  }

  /** When all is served, told from the tree. */
  lemma ServedOnTree(a: Archive, wanted: seq<Target>, recording: bool, e: nat)
    requires WellFormedArchive(a) && GoodRequest(wanted) && wanted != [] && Plain(ArchiveFiles(a))
    ensures Served(Restorer(wanted, recording), ArchiveTokens(a), e) <==> AllServed(ArchiveFiles(a), wanted, e)
  {
    hide Apply, ApplyAll, ArchiveTokens, WellFormedArchive, ArchiveFiles, Plain, FoldGoal, Matching, TargetMap, Keyed,
         Served, SharesKey, TokensBy, FilesBy, FileKey, TargetPathKeys;
    var c, files := Restorer(wanted, recording), ArchiveFiles(a);
    StartsKeyed(wanted, recording);
    ServedIsDone(c, ArchiveTokens(a), e, wanted);
    PrefixOfArchive(c, a, e);
    var g := FoldGoal(c.goal, FilesBy(files, e));
    forall t <- wanted
      ensures ServedBy(c.goal, FilesBy(files, e), t, g) && Keyed(g, wanted)
      ensures Matching(FilesBy(files, e), t) != []
         <==> exists f <- files :: FileKey(f) in TargetPathKeys(t.filePath) && f.pos.entryEnd <= e
    {
      FoldServes(c.goal, FilesBy(files, e), wanted, t);
      MatchingBy(files, t, e);
    }
    assert wanted[0] in wanted;
    PendingCounts(g, wanted);
  }

  /** Some piece ends in a file's header window while a target still waits for its file. */
  predicate TornTooSoon(files: seq<Located>, wanted: seq<Target>, pieces: seq<bytes>)
    requires AllTargets(wanted)
  {
    exists j :: 0 < j <= |pieces|
      && CutsAFile(files, |Flatten(pieces[..j])|) && !AllServed(files, wanted, |Flatten(pieces[..j])|)
  }

  lemma CleanOnTree(a: Archive, wanted: seq<Target>, recording: bool, pieces: seq<bytes>)
    requires WellFormedArchive(a) && Flatten(pieces) == EncodeArchive(a)
    requires GoodRequest(wanted) && wanted != [] && Plain(ArchiveFiles(a))
    ensures CutsClean(Restorer(wanted, recording), ArchiveTokens(a), pieces, 0)
       <==> !TornTooSoon(ArchiveFiles(a), wanted, pieces)
  {
    hide ArchiveTokens, EncodeArchive, WellFormedArchive, ArchiveFiles, Plain, Served, InWindow, CutsAFile, AllServed,
         Flatten, SharesKey, TargetMap;
    var c, toks := Restorer(wanted, recording), ArchiveTokens(a);
    forall j | 0 < j <= |pieces|
      ensures InWindow(toks, |Flatten(pieces[..j])|) <==> CutsAFile(ArchiveFiles(a), |Flatten(pieces[..j])|)
      ensures Served(c, toks, |Flatten(pieces[..j])|) <==> AllServed(ArchiveFiles(a), wanted, |Flatten(pieces[..j])|)
    {
      PrefixOfFlatten(pieces, j);
      WindowsOfArchive(a, |Flatten(pieces[..j])|);
      ServedOnTree(a, wanted, recording, |Flatten(pieces[..j])|);
    }
  }

  /** What every target has received. */
  predicate Delivered(files: seq<Located>, wanted: seq<Target>, restored: map<nat, bytes>)
    requires AllTargets(wanted)
  {
    forall t <- wanted ::
      if Matching(files, t) == [] then t.id !in restored
      else t.id in restored && restored[t.id] == Matching(files, t)[0].data
  }

  /**
   The main theorem on selective restore. For every archive, request and cut: the feeding
   fails exactly if some piece ends in a file's header window while a target still waits for
   its file; otherwise each target gets the data of the first file that matches it and no
   target without a match gets anything, the feeding ends early exactly when every target has
   a match, and exactly then nothing is left pending.
   */
  lemma RestoreIsExact(a: Archive, wanted: seq<Target>, recording: bool, pieces: seq<bytes>)
    requires WellFormedArchive(a) && |EncodeArchive(a)| <= MAX_INT && Flatten(pieces) == EncodeArchive(a)
    requires GoodRequest(wanted) && wanted != [] && Plain(ArchiveFiles(a))
    ensures var r := FeedAll(Parser(Restorer(wanted, recording), []), pieces);
      var files := ArchiveFiles(a);
      if TornTooSoon(files, wanted, pieces) then r == Failed(UnexpectedDirBlock)
      else
        && (r.Done? || r.Quiet?) && Delivered(files, wanted, r.p.core.goal.restored)
        && (r.Done? <==> AllServed(files, wanted, |EncodeArchive(a)|))
        && r.p.core.goal.pending >= 0
        && (r.p.core.goal.pending == 0 <==> AllServed(files, wanted, |EncodeArchive(a)|))
  {
    hide Apply, ApplyAll, InWindow, Drain, FeedAll, Row, ArchiveTokens, EncodeArchive, Readable, TornTooSoon, AllServed,
         WellFormedArchive, ArchiveFiles, Flatten, Plain, FoldGoal, TargetMap, Keyed, Served, CutsClean, FinishedEarly,
         SharesKey, Delivered;
    var c, toks, files := Restorer(wanted, recording), ArchiveTokens(a), ArchiveFiles(a);
    RowOfArchive(a);
    ArchiveIsReadable(a);
    NothingToDo(c);
    assert pieces[..0] == [] && pieces[0..] == pieces;
    assert Flatten(pieces[..0]) == [] by { EmptyFlatten(); }
    FeedFrom(c, toks, pieces, 0, Parser(c, []));
    CleanOnTree(a, wanted, recording, pieces);
    ServedOnTree(a, wanted, recording, |EncodeArchive(a)|);
    RestoreArchive(c, a);
    StartsKeyed(wanted, recording);
    var r := FeedAll(Parser(c, []), pieces);
    if CutsClean(c, toks, pieces, 0) {
      if r.Done? { EarlyStopLosesNothing(c, toks, wanted, r.p.core); }
      assert r.p.core.goal == FoldGoal(c.goal, files);
      WholePass(a, wanted, recording);
    }
  }

  /** A pass over all files delivers to every target, and leaves nothing pending exactly if each has a match. */
  lemma WholePass(a: Archive, wanted: seq<Target>, recording: bool)
    requires GoodRequest(wanted) && wanted != []
    ensures var files := ArchiveFiles(a); var g := FoldGoal(Restorer(wanted, recording).goal, files);
      Delivered(files, wanted, g.restored) && g.pending >= 0
      && (g.pending == 0 <==> AllServed(files, wanted, |EncodeArchive(a)|))
  {
    hide EncodeArchive, ArchiveFiles, FoldGoal, TargetMap, Keyed, SharesKey, Matching, FileKey, TargetPathKeys;
    var c, files := Restorer(wanted, recording), ArchiveFiles(a);
    var g := FoldGoal(c.goal, files);
    StartsKeyed(wanted, recording);
    AllEndInside(a);
    FilesByAll(files, |EncodeArchive(a)|);
    forall t <- wanted
      ensures ServedBy(c.goal, files, t, g) && Keyed(g, wanted)
      ensures Matching(files, t) != []
         <==> exists f <- files :: FileKey(f) in TargetPathKeys(t.filePath) && f.pos.entryEnd <= |EncodeArchive(a)|
    {
      FoldServes(c.goal, files, wanted, t);
      MatchingBy(files, t, |EncodeArchive(a)|);
    }
    assert wanted[0] in wanted;
    PendingCounts(g, wanted);
  }

  lemma AllEndInside(a: Archive)
    ensures forall f <- ArchiveFiles(a) :: f.pos.entryEnd <= |EncodeArchive(a)|
  {
    hide Files, Encode, EntryBlock, GoodbyeBlock;
    FilesEndInside(a.kids, [], |EntryBlock(a.mode, a.extra)|);
  }
}
