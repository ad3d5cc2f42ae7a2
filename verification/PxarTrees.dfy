/** Trees as rows of tokens, and the file positions as the places where a cut is fatal. */
module PxarTrees {
  import opened Bytes
  import opened PxarFormat
  import opened PxarStreamSpec
  import opened PxarTokens
  import opened PxarRows

  function Tokens(s: Siblings): seq<Token> {
    match s
    case End => []
    case File(name, mode, extra, data, next) => [Leaf(name, mode, extra, data)] + Tokens(next)
    case Dir(name, mode, extra, kids, table, next) =>
      [Enter(name, mode, extra)] + (Tokens(kids) + ([Leave(table)] + Tokens(next)))
  }

  function ArchiveTokens(a: Archive): seq<Token> {
    [Root(a.mode, a.extra)] + (Tokens(a.kids) + [Leave(a.table)])
  }

  lemma {:induction false} RowOfTree(s: Siblings)
    ensures Row(Tokens(s)) == Encode(s)
  {
    hide Row, Head, Block, GoodbyeBlock;
    match s
    case End => EmptyRow();
    case File(name, mode, extra, data, next) =>
      RowOne(Leaf(name, mode, extra, data), Tokens(next));
      RowOfTree(next);
    case Dir(name, mode, extra, kids, table, next) =>
      RowOne(Leave(table), Tokens(next));
      RowAppend(Tokens(kids), [Leave(table)] + Tokens(next));
      RowOne(Enter(name, mode, extra), Tokens(kids) + ([Leave(table)] + Tokens(next)));
      RowOfTree(kids);
      RowOfTree(next);
  }

  lemma RowOfArchive(a: Archive)
    ensures Row(ArchiveTokens(a)) == EncodeArchive(a)
  {
    hide Row, EntryBlock, GoodbyeBlock;
    RowOne(Root(a.mode, a.extra), Tokens(a.kids) + [Leave(a.table)]);
    RowAppend(Tokens(a.kids), [Leave(a.table)]);
    RowOne(Leave(a.table), []);
    assert [Leave(a.table)] + [] == [Leave(a.table)];
    EmptyRow();
    RowOfTree(a.kids);
  }

  predicate Inner(toks: seq<Token>) {
    forall t <- toks :: GoodToken(t) && !t.Root?
  }

  lemma {:induction false} InnerIsReadable(toks: seq<Token>)
    requires Inner(toks)
    ensures Readable(InDir, toks)
    decreases |toks|
  {
    if toks != [] {
      InnerIsReadable(toks[1..]);
    }
  }

  lemma {:induction false} TreeTokensAreGood(s: Siblings)
    requires WellFormed(s) && |Encode(s)| <= MAX_INT
    ensures Inner(Tokens(s))
  {
    hide Head, Block, GoodbyeBlock, IsDirMode;
    match s
    case End =>
    case File(_, _, _, _, next) => TreeTokensAreGood(next);
    case Dir(_, _, _, kids, _, next) =>
      TreeTokensAreGood(kids);
      TreeTokensAreGood(next);
  }

  lemma ArchiveIsReadable(a: Archive)
    requires WellFormedArchive(a) && |EncodeArchive(a)| <= MAX_INT
    ensures Readable(RootEntry, ArchiveTokens(a))
  {
    hide EntryBlock, GoodbyeBlock, IsDirMode, WellFormed;
    TreeTokensAreGood(a.kids);
    InnerIsReadable(Tokens(a.kids) + [Leave(a.table)]);
    assert ArchiveTokens(a)[1..] == Tokens(a.kids) + [Leave(a.table)];
  }

  /** A cut at stream position `e` falls between some file's entry and the end of its payload header. */
  predicate CutsAFile(files: seq<Located>, e: nat) {
    exists f <- files :: f.pos.offset <= e < f.pos.offset + 16
  }

  lemma InWindowOne(t: Token, rest: seq<Token>, k: nat)
    ensures InWindow([t] + rest, k)
       <==> if k < |TokenBytes(t)| then InHeaderWindow(t, k) else InWindow(rest, k - |TokenBytes(t)|)
  {
    assert ([t] + rest)[1..] == rest;
  }

  lemma {:induction false} FilesLieInside(s: Siblings, dir: bytes, off: nat)
    ensures forall f <- Files(s, dir, off) :: off <= f.pos.offset && f.pos.offset + 16 <= off + |Encode(s)|
  {
    hide Head, Block, GoodbyeBlock, Join, Encode;
    SizeOf(s);
    match s
    case End =>
    case File(name, mode, extra, data, next) =>
      FilesLieInside(next, dir, off + |Head(name, mode, extra)| + 16 + |data|);
    case Dir(name, mode, extra, kids, table, next) =>
      var at := off + |Head(name, mode, extra)|;
      FilesLieInside(kids, Join(dir, name), at);
      FilesLieInside(next, dir, at + |Encode(kids)| + |GoodbyeBlock(table)|);
  }

  lemma CutsAppend(a: seq<Located>, b: seq<Located>, e: nat)
    ensures CutsAFile(a + b, e) <==> CutsAFile(a, e) || CutsAFile(b, e)
  {
    assert forall f <- a :: f in a + b;
    assert forall f <- b :: f in a + b;
  }

  /** The windows of the row are the windows of the files. */
  lemma {:induction false} WindowsOfTree(s: Siblings, dir: bytes, off: nat, k: nat)
    requires k <= |Encode(s)|
    ensures InWindow(Tokens(s), k) <==> CutsAFile(Files(s, dir, off), off + k)
  {
    hide InWindow, Row, Head, Block, GoodbyeBlock, Join, CutsAFile, Tokens, Files, Encode;
    SizeOf(s);
    match s
    case End => NothingThere(dir, off, k);
    case File(name, mode, extra, data, next) =>
      WindowsOfFile(s, dir, off, k);
      var size := |Head(name, mode, extra)| + 16 + |data|;
      if k >= size {
        WindowsOfTree(next, dir, off + size, k - size);
      } else {
        NoCutOutside(next, dir, off + size, off + k);
      }
    case Dir(name, mode, extra, kids, table, next) =>
      WindowsOfDir(s, dir, off, k);
      var h, n, g := |Head(name, mode, extra)|, |Encode(kids)|, |GoodbyeBlock(table)|;
      if h <= k < h + n {
        WindowsOfTree(kids, Join(dir, name), off + h, k - h);
      } else {
        NoCutOutside(kids, Join(dir, name), off + h, off + k);
      }
      if k >= h + n + g {
        WindowsOfTree(next, dir, off + h + n + g, k - h - n - g);
      } else {
        NoCutOutside(next, dir, off + h + n + g, off + k);
      }
  }

  lemma NothingThere(dir: bytes, off: nat, k: nat)
    ensures !InWindow(Tokens(End), k) && !CutsAFile(Files(End, dir, off), off + k)
  {
    NoWindow(k, off + k);
  }

  lemma SizeOf(s: Siblings)
    ensures match s
      case End => |Encode(s)| == 0
      case File(name, mode, extra, data, next) =>
        |Encode(s)| == |Head(name, mode, extra)| + 16 + |data| + |Encode(next)|
      case Dir(name, mode, extra, kids, table, next) =>
        |Encode(s)| == |Head(name, mode, extra)| + |Encode(kids)| + |GoodbyeBlock(table)| + |Encode(next)|
  {
    hide Head, GoodbyeBlock;
  }

  lemma WindowsOfDir(s: Siblings, dir: bytes, off: nat, k: nat)
    requires s.Dir?
    ensures var h, n, g := |Head(s.name, s.mode, s.extra)|, |Encode(s.kids)|, |GoodbyeBlock(s.table)|;
      && (InWindow(Tokens(s), k) <==>
            if k < h then false
            else if k < h + n then InWindow(Tokens(s.kids), k - h)
            else if k < h + n + g then false
            else InWindow(Tokens(s.next), k - h - n - g))
      && (CutsAFile(Files(s, dir, off), off + k) <==>
            CutsAFile(Files(s.kids, Join(dir, s.name), off + h), off + k)
            || CutsAFile(Files(s.next, dir, off + h + n + g), off + k))
  {
    hide InWindow, Row, Head, Block, GoodbyeBlock, Join, CutsAFile, Encode;
    var h, n, g := |Head(s.name, s.mode, s.extra)|, |Encode(s.kids)|, |GoodbyeBlock(s.table)|;
    RowOfTree(s.kids);
    var after := [Leave(s.table)] + Tokens(s.next);
    InWindowOne(Leave(s.table), Tokens(s.next), if k >= h + n then k - h - n else 0);
    InWindowAppend(Tokens(s.kids), after, if k >= h then k - h else 0);
    InWindowOne(Enter(s.name, s.mode, s.extra), Tokens(s.kids) + after, k);
    CutsAppend(Files(s.kids, Join(dir, s.name), off + h), Files(s.next, dir, off + h + n + g), off + k);
  }

  lemma NoWindow(k: nat, e: nat)
    ensures !InWindow([], k) && !CutsAFile([], e)
  {
  }

  lemma NoCutOutside(s: Siblings, dir: bytes, off: nat, e: nat)
    requires e < off || e >= off + |Encode(s)|
    ensures !CutsAFile(Files(s, dir, off), e)
  {
    hide Encode, Files;
    FilesLieInside(s, dir, off);
  }

  lemma WindowsOfFile(s: Siblings, dir: bytes, off: nat, k: nat)
    requires s.File?
    ensures var size := |Head(s.name, s.mode, s.extra)| + 16 + |s.data|;
      && (InWindow(Tokens(s), k) <==>
            if k < size then |Head(s.name, s.mode, s.extra)| <= k < |Head(s.name, s.mode, s.extra)| + 16
            else InWindow(Tokens(s.next), k - size))
      && (CutsAFile(Files(s, dir, off), off + k) <==>
            |Head(s.name, s.mode, s.extra)| <= k < |Head(s.name, s.mode, s.extra)| + 16
            || CutsAFile(Files(s.next, dir, off + size), off + k))
  {
    hide InWindow, Row, Head, Join;
    var t := Leaf(s.name, s.mode, s.extra, s.data);
    LeafBytes(t, []);
    assert TokenBytes(t) + [] == TokenBytes(t);
    InWindowOne(t, Tokens(s.next), k);
    var h := |Head(s.name, s.mode, s.extra)|;
    var first := Located(Join(dir, s.name), FilePos(off + h, |s.data|, off + h, off + h + 16 + |s.data|), s.data);
    CutsAppend([first], Files(s.next, dir, off + h + 16 + |s.data|), off + k);
    assert CutsAFile([first], off + k) <==> h <= k < h + 16 by {
      assert first in [first];
    }
  }

  lemma WindowsOfArchive(a: Archive, e: nat)
    requires e <= |EncodeArchive(a)|
    ensures InWindow(ArchiveTokens(a), e) <==> CutsAFile(ArchiveFiles(a), e)
  {
    hide InWindow, EntryBlock, GoodbyeBlock, CutsAFile, Files;
    var r, n := |EntryBlock(a.mode, a.extra)|, |Encode(a.kids)|;
    RowOfTree(a.kids);
    InWindowOne(Root(a.mode, a.extra), Tokens(a.kids) + [Leave(a.table)], e);
    InWindowAppend(Tokens(a.kids), [Leave(a.table)], if e >= r then e - r else 0);
    InWindowOne(Leave(a.table), [], if e >= r + n then e - r - n else 0);
    assert [Leave(a.table)] + [] == [Leave(a.table)];
    NoWindow(if e >= r + n + |GoodbyeBlock(a.table)| then e - r - n - |GoodbyeBlock(a.table)| else 0, e);
    if r <= e < r + n {
      WindowsOfTree(a.kids, [], r, e - r);
    } else {
      NoCutOutside(a.kids, [], r, e);
    }
  }
}
