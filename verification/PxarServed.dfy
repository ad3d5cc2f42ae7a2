/** How far into the stream a selective restore has to read: what each prefix of the archive serves. */
module PxarServed {
  import opened Bytes
  import opened PxarFormat
  import opened Paths
  import opened PxarStreamSpec
  import opened PxarTokens
  import opened PxarRows
  import opened PxarTrees
  import opened PxarIndexTheorem
  import opened PxarRestoreTheorem

  /** The tokens that end at position `k` or before. */
  function TokensBy(toks: seq<Token>, k: nat): seq<Token>
    decreases |toks|
  {
    if toks == [] || k < |TokenBytes(toks[0])| then [] else
      [toks[0]] + TokensBy(toks[1..], k - |TokenBytes(toks[0])|)
  }

  /** The files whose payload ends at stream position `e` or before. */
  function FilesBy(files: seq<Located>, e: nat): seq<Located> {
    if files == [] then [] else
      (if files[0].pos.entryEnd <= e then [files[0]] else []) + FilesBy(files[1..], e)
  }

  lemma {:induction false} TokensByAppend(a: seq<Token>, b: seq<Token>, k: nat)
    ensures TokensBy(a + b, k) == if k < |Row(a)| then TokensBy(a, k) else a + TokensBy(b, k - |Row(a)|)
    decreases |a|
  {
    hide TokenBytes;
    if a == [] {
      assert a + b == b;
    } else {
      assert (a + b)[0] == a[0] && (a + b)[1..] == a[1..] + b;
      if k >= |TokenBytes(a[0])| {
        TokensByAppend(a[1..], b, k - |TokenBytes(a[0])|);
        assert a == [a[0]] + a[1..];
      }
    }
  }

  lemma TokensByOne(t: Token, rest: seq<Token>, k: nat)
    ensures TokensBy([t] + rest, k)
         == if k < |TokenBytes(t)| then [] else [t] + TokensBy(rest, k - |TokenBytes(t)|)
  {
    assert ([t] + rest)[1..] == rest;
  }

  lemma {:induction false} FilesByAppend(a: seq<Located>, b: seq<Located>, e: nat)
    ensures FilesBy(a + b, e) == FilesBy(a, e) + FilesBy(b, e)
  {
    if a == [] {
      assert a + b == b;
    } else {
      assert (a + b)[0] == a[0] && (a + b)[1..] == a[1..] + b;
      FilesByAppend(a[1..], b, e);
    }
  }

  lemma {:induction false} FilesByAll(files: seq<Located>, e: nat)
    ensures (forall f <- files :: f.pos.entryEnd <= e) ==> FilesBy(files, e) == files
    ensures (forall f <- files :: f.pos.entryEnd > e) ==> FilesBy(files, e) == []
  {
    if files != [] {
      FilesByAll(files[1..], e);
      assert files == [files[0]] + files[1..];
    }
  }

  lemma {:induction false} FilesEndInside(s: Siblings, dir: bytes, off: nat)
    ensures forall f <- Files(s, dir, off) :: off < f.pos.entryEnd <= off + |Encode(s)|
  {
    hide Head, Block, GoodbyeBlock, Join, Encode;
    SizeOf(s);
    match s
    case End =>
    case File(name, mode, extra, data, next) =>
      FilesEndInside(next, dir, off + |Head(name, mode, extra)| + 16 + |data|);
    case Dir(name, mode, extra, kids, table, next) =>
      var at := off + |Head(name, mode, extra)|;
      FilesEndInside(kids, Join(dir, name), at);
      FilesEndInside(next, dir, at + |Encode(kids)| + |GoodbyeBlock(table)|);
  }

  lemma FilesOutside(s: Siblings, dir: bytes, off: nat, e: nat)
    ensures e <= off ==> FilesBy(Files(s, dir, off), e) == []
    ensures e >= off + |Encode(s)| ==> FilesBy(Files(s, dir, off), e) == Files(s, dir, off)
  {
    hide Files, Encode;
    FilesEndInside(s, dir, off);
    FilesByAll(Files(s, dir, off), e);
  }

  /** After the tokens up to `k`, the targets stand as if the files up to there had been offered them. */
  predicate ServedUpTo(c: Core, s: Siblings, k: nat) {
    ApplyAll(c, TokensBy(Tokens(s), k)).goal
    == FoldGoal(c.goal, FilesBy(Files(s, CurrentPath(c.pathStack), c.streamOff), c.streamOff + k))
  }

  lemma {:induction false} PrefixOfTree(c: Core, s: Siblings, k: nat)
    requires Restoring(c, s)
    ensures ServedUpTo(c, s, k)
    decreases s, 1
  {
    hide Apply, ApplyAll, CurrentPath, Head, Block, IsDirMode, InSkip, LookupTarget, MarkDone, FileKey, FoldGoal,
         TokensBy, FilesBy;
    match s
    case End =>
      NoTokensLeft(c);
      NothingBy(k, c.streamOff + k);
    case File(_, _, _, _, _) => PrefixOfFile(c, s, k);
    case Dir(_, _, _, _, _, _) => PrefixOfDir(c, s, k);
  }

  lemma NothingBy(k: nat, e: nat)
    ensures TokensBy([], k) == [] && FilesBy([], e) == []
  {
  }

  /** A file's token offers the file to the targets and leaves the rest of the chain. */
  lemma PastFile(c: Core, s: Siblings)
    requires Restoring(c, s) && s.File?
    ensures var t := Leaf(s.name, s.mode, s.extra, s.data);
      var f := Files(s, CurrentPath(c.pathStack), c.streamOff)[0];
      var hit, d := LookupTarget(c.goal, [FileKey(f)]), Apply(c, t);
      && |TokenBytes(t)| == |Head(s.name, s.mode, s.extra)| + 16 + |s.data|
      && Restoring(d, s.next) && d.pathStack == c.pathStack && d.streamOff == c.streamOff + |TokenBytes(t)|
      && d.goal == if hit.Target? then MarkDone(c.goal, hit, f.data) else c.goal
  {
    hide Apply, CurrentPath, Head, IsDirMode, InSkip, LookupTarget, MarkDone, FileKey, Encode, Join, HasDrivePrefix;
    var t := Leaf(s.name, s.mode, s.extra, s.data);
    var files := Files(s, CurrentPath(c.pathStack), c.streamOff);
    LeafBytes(t, []);
    assert TokenBytes(t) + [] == TokenBytes(t);
    JoinIsChild(c, s.name);
    RestoreLeaf(c, t, files[0]);
    ApplyKeeps(c, t);
    assert files == [files[0]] + files[1..];
  }

  lemma JoinIsChild(c: Core, name: bytes)
    ensures ChildPath(c, name) == Join(CurrentPath(c.pathStack), name)
  {
  }

  /** The files of a chain that begins with a file, as far as they end by `e`. */
  lemma FilesOfFile(s: Siblings, dir: bytes, off: nat, e: nat)
    requires s.File?
    ensures var files := Files(s, dir, off);
      var at := off + |Head(s.name, s.mode, s.extra)| + 16 + |s.data|;
      && files != [] && files[0].pos.entryEnd == at && files[0].data == s.data
      && FilesBy(files, e) == (if at <= e then [files[0]] else []) + FilesBy(Files(s.next, dir, at), e)
      && Tokens(s) == [Leaf(s.name, s.mode, s.extra, s.data)] + Tokens(s.next)
  {
    hide Head, Join;
    var files := Files(s, dir, off);
    assert files == [files[0]] + files[1..];
    assert files[1..] == Files(s.next, dir, off + |Head(s.name, s.mode, s.extra)| + 16 + |s.data|);
  }

  lemma {:induction false} PrefixOfFile(c: Core, s: Siblings, k: nat)
    requires Restoring(c, s) && s.File?
    ensures ServedUpTo(c, s, k)
    decreases s, 0
  {
    hide Apply, ApplyAll, CurrentPath, Head, IsDirMode, InSkip, LookupTarget, MarkDone, FileKey, FoldGoal, TokensBy,
         FilesBy, Encode, Restoring, Files, Tokens, TokenBytes;
    var t := Leaf(s.name, s.mode, s.extra, s.data);
    var dir, e := CurrentPath(c.pathStack), c.streamOff + k;
    var size := |Head(s.name, s.mode, s.extra)| + 16 + |s.data|;
    PastFile(c, s);
    FilesOfFile(s, dir, c.streamOff, e);
    var f, more := Files(s, dir, c.streamOff)[0], FilesBy(Files(s.next, dir, c.streamOff + size), e);
    TokensByOne(t, Tokens(s.next), k);
    if k < size {
      FilesOutside(s.next, dir, c.streamOff + size, e);
      NoTokensLeft(c);
      assert [] + more == [];
    } else {
      PrefixOfTree(Apply(c, t), s.next, k - size);
      ApplyOne(c, t, TokensBy(Tokens(s.next), k - size));
      FoldGoalOne(c.goal, [f] + more);
      assert ([f] + more)[1..] == more;
    }
  }

  lemma {:induction false} PrefixOfDir(c: Core, s: Siblings, k: nat)
    requires Restoring(c, s) && s.Dir?
    ensures ServedUpTo(c, s, k)
    decreases s, 0
  {
    hide Apply, ApplyAll, CurrentPath, Head, GoodbyeBlock, IsDirMode, InSkip, LookupTarget, MarkDone, FileKey, FoldGoal,
         TokensBy, FilesBy, Encode, Restoring;
    var enter, leave := Enter(s.name, s.mode, s.extra), Leave(s.table);
    var dir, off := CurrentPath(c.pathStack), c.streamOff;
    var h, n, g := |Head(s.name, s.mode, s.extra)|, |Encode(s.kids)|, |GoodbyeBlock(s.table)|;
    var kids, next := Files(s.kids, Join(dir, s.name), off + h), Files(s.next, dir, off + h + n + g);
    FilesByAppend(kids, next, off + k);
    TokensOfDir(s, k);
    IntoDir(c, s);
    if k < h + n + g { FilesOutside(s.next, dir, off + h + n + g, off + k); }
    if k < h {
      FilesOutside(s.kids, Join(dir, s.name), off + h, off + k);
      NoTokensLeft(c);
    } else {
      var c1 := Apply(c, enter);
      ApplyOne(c, enter, TokensBy(Tokens(s.kids), k - h));
      PrefixOfTree(c1, s.kids, k - h);
      if k >= h + n + g {
        RestoreTree(c1, s.kids);
        var c2 := ApplyAll(c1, Tokens(s.kids));
        OutOfDir(c, s, c2);
        PrefixOfTree(Apply(c2, leave), s.next, k - h - n - g);
        FilesOutside(s.kids, Join(dir, s.name), off + h, off + k);
        FoldGoalAppend(c.goal, kids, FilesBy(next, off + k));
        var more := TokensBy(Tokens(s.next), k - h - n - g);
        ApplyOne(c, enter, Tokens(s.kids) + ([leave] + more));
        ApplyAllAppend(c1, Tokens(s.kids), [leave] + more);
        ApplyOne(c2, leave, more);
      } else {
        assert FilesBy(kids, off + k) + [] == FilesBy(kids, off + k);
      }
    }
  }

  lemma TokensOfDir(s: Siblings, k: nat)
    requires s.Dir?
    ensures var h, n, g := |Head(s.name, s.mode, s.extra)|, |Encode(s.kids)|, |GoodbyeBlock(s.table)|;
      TokensBy(Tokens(s), k)
      == if k < h then []
         else if k < h + n + g then [Enter(s.name, s.mode, s.extra)] + TokensBy(Tokens(s.kids), k - h)
         else [Enter(s.name, s.mode, s.extra)]
              + (Tokens(s.kids) + ([Leave(s.table)] + TokensBy(Tokens(s.next), k - h - n - g)))
  {
    hide Head, GoodbyeBlock, Encode, TokensBy, Row;
    var h, n := |Head(s.name, s.mode, s.extra)|, |Encode(s.kids)|;
    var enter, leave := Enter(s.name, s.mode, s.extra), Leave(s.table);
    RowOfTree(s.kids);
    TokensByOne(enter, Tokens(s.kids) + ([leave] + Tokens(s.next)), k);
    if k >= h {
      TokensByAppend(Tokens(s.kids), [leave] + Tokens(s.next), k - h);
      if k >= h + n {
        TokensByOne(leave, Tokens(s.next), k - h - n);
        AllBy(Tokens(s.kids), k - h);
        assert Tokens(s.kids) + [] == Tokens(s.kids);
      }
    }
  }

  lemma {:induction false} AllBy(toks: seq<Token>, k: nat)
    requires k >= |Row(toks)|
    ensures TokensBy(toks, k) == toks
    decreases |toks|
  {
    hide TokenBytes;
    if toks != [] {
      AllBy(toks[1..], k - |TokenBytes(toks[0])|);
    }
  }

  /** The same of a whole archive. */
  lemma PrefixOfArchive(c: Core, a: Archive, k: nat)
    requires WellFormedArchive(a) && Plain(ArchiveFiles(a))
    requires !c.indexMode && c.pathStack == [] && c.walk == RootEntry && c.streamOff == 0
    ensures ApplyAll(c, TokensBy(ArchiveTokens(a), k)).goal == FoldGoal(c.goal, FilesBy(ArchiveFiles(a), k))
  {
    hide Apply, ApplyAll, EntryBlock, GoodbyeBlock, IsDirMode, WellFormed, Files, FoldGoal, Plain, TokensBy, FilesBy,
         Row, Encode;
    var root, leave := Root(a.mode, a.extra), Leave(a.table);
    var h, n := |EntryBlock(a.mode, a.extra)|, |Encode(a.kids)|;
    TokensByOne(root, Tokens(a.kids) + [leave], k);
    if k < h {
      FilesOutside(a.kids, [], h, k);
      NoTokensLeft(c);
    } else {
      RowOfTree(a.kids);
      RootFacts(c, root);
      ApplyKeeps(c, root);
      var c1 := Apply(c, root);
      var upTo := TokensBy(Tokens(a.kids) + [leave], k - h);
      ApplyOne(c, root, upTo);
      TokensByAppend(Tokens(a.kids), [leave], k - h);
      PrefixOfTree(c1, a.kids, k - h);
      if k >= h + n {
        AllBy(Tokens(a.kids), k - h);
        var rest := TokensBy([leave], k - h - n);
        ApplyAllAppend(c1, Tokens(a.kids), rest);
        LeaveLast(ApplyAll(c1, Tokens(a.kids)), leave, k - h - n);
      }
    }
  }

  lemma LeaveLast(c: Core, leave: Token, k: nat)
    requires leave.Leave?
    ensures ApplyAll(c, TokensBy([leave], k)).goal == c.goal
  {
    hide Apply, TokenBytes;
    TokensByOne(leave, [], k);
    assert [leave] + [] == [leave];
    NothingBy(if k >= |TokenBytes(leave)| then k - |TokenBytes(leave)| else 0, 0);
    LastLeave(c, leave);
    ApplyOne(c, leave, []);
    NoTokens(c);
    NoTokens(Apply(c, leave));
  }
}
