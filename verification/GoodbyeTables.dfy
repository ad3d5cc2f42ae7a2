/** Every directory has a goodbye table: its children's hashes in order, laid out as a search tree. */
module GoodbyeTables {
  import opened Bytes
  import opened PxarFormat
  import opened GoodbyeSearch
  import opened PxarRead
  import opened PxarLookupTheorem

  // The shape of the array tree.

  /** How many of the first `n` positions lie in the subtree at `i`. */
  function Size(i: nat, n: nat): nat
    decreases n - i
  {
    if i >= n then 0 else Size(2 * i + 1, n) + 1 + Size(2 * i + 2, n)
  }

  function Under(i: nat, n: nat): set<nat> {
    set p: nat | p < n && Below(i, p)
  }

  lemma {:induction false} BelowGrows(i: nat, p: nat)
    ensures Below(i, p) ==> i <= p
    ensures Below(2 * i + 1, p) || Below(2 * i + 2, p) ==> Below(i, p)
    decreases p
  {
    if p > 0 {
      BelowGrows(i, (p - 1) / 2);
    }
  }

  lemma {:induction false} OnlyOneSide(i: nat, p: nat)
    ensures !(Below(2 * i + 1, p) && Below(2 * i + 2, p))
    decreases p
  {
    if p > 0 {
      OnlyOneSide(i, (p - 1) / 2);
      BelowGrows(2 * i + 1, (p - 1) / 2);
      BelowGrows(2 * i + 2, (p - 1) / 2);
    }
  }

  lemma {:induction false} BelowTransitive(a: nat, b: nat, p: nat)
    requires Below(a, b) && Below(b, p)
    ensures Below(a, p)
    decreases p
  {
    if p != b {
      BelowGrows(a, b);
      BelowGrows(b, p);
      BelowTransitive(a, b, (p - 1) / 2);
    }
  }

  lemma NothingUnder(i: nat, n: nat)
    requires i >= n
    ensures Under(i, n) == {}
  {
    forall p: nat | p < n
      ensures !Below(i, p)
    {
      BelowGrows(i, p);
    }
  }

  lemma {:induction false} SizeCounts(i: nat, n: nat)
    ensures |Under(i, n)| == Size(i, n)
    decreases n - i
  {
    hide Below, Under;
    if i >= n {
      NothingUnder(i, n);
    } else {
      SizeCounts(2 * i + 1, n);
      SizeCounts(2 * i + 2, n);
      UnderSides(i, n);
      var left, right := Under(2 * i + 1, n), Under(2 * i + 2, n);
      assert |left + {i}| == |left| + 1 && |(left + {i}) + right| == |left + {i}| + |right|;
    }
  }

  lemma UnderSides(i: nat, n: nat)
    requires i < n
    ensures var left, right := Under(2 * i + 1, n), Under(2 * i + 2, n);
      Under(i, n) == left + {i} + right && left !! right && i !in left + right
  {
    hide Below;
    BelowItself(i);
    forall p: nat | p < n
      ensures Below(i, p) <==> p == i || Below(2 * i + 1, p) || Below(2 * i + 2, p)
      ensures !(Below(2 * i + 1, p) && Below(2 * i + 2, p))
    {
      OnlyOneSide(i, p);
      BelowGrows(i, p);
      if Below(i, p) && p != i { BelowIsOneSide(i, p); }
    }
    BelowGrows(2 * i + 1, i);
    BelowGrows(2 * i + 2, i);
  }

  lemma BelowItself(i: nat)
    ensures Below(i, i)
  {
  }

  /** The tree at the root takes in all positions. */
  lemma WholeSize(n: nat)
    ensures Size(0, n) == n
  {
    SizeCounts(0, n);
    forall p: nat | p < n
      ensures p in Under(0, n)
    {
      EverythingIsBelowRoot(p);
    }
    FirstNumbers(n, Under(0, n));
  }

  lemma {:induction false} FirstNumbers(n: nat, s: set<nat>)
    requires forall p: nat :: p in s <==> p < n
    ensures |s| == n
  {
    if n > 0 {
      FirstNumbers(n - 1, s - {n - 1});
    } else {
      assert s == {};
    }
  }

  // Sorted items laid out in it.

  /** The item at position `p` of the subtree at `i`. */
  function Pick(i: nat, n: nat, items: seq<GoodbyeItem>, p: nat): (x: GoodbyeItem)
    requires p < n && Below(i, p) && |items| == Size(i, n)
    ensures x in items
    decreases n - i
  {
    BelowGrows(i, p);
    var l := Size(2 * i + 1, n);
    if p == i then items[l]
    else
      BelowIsOneSide(i, p);
      if Below(2 * i + 1, p) then Pick(2 * i + 1, n, items[..l], p) else Pick(2 * i + 2, n, items[l + 1..], p)
  }

  predicate Ascends(items: seq<GoodbyeItem>) {
    forall a, b | 0 <= a < b < |items| :: items[a].hash < items[b].hash
  }

  lemma PickSide(r: nat, n: nat, items: seq<GoodbyeItem>, p: nat)
    requires p < n && Below(r, p) && |items| == Size(r, n)
    ensures r < n
    ensures p == r ==> Pick(r, n, items, p) == items[Size(2 * r + 1, n)]
    ensures Below(2 * r + 1, p) ==> Pick(r, n, items, p) == Pick(2 * r + 1, n, items[..Size(2 * r + 1, n)], p)
    ensures Below(2 * r + 2, p) ==> Pick(r, n, items, p) == Pick(2 * r + 2, n, items[Size(2 * r + 1, n) + 1..], p)
  {
    BelowGrows(r, p);
    BelowGrows(2 * r + 1, p);
    BelowGrows(2 * r + 2, p);
    OnlyOneSide(r, p);
  }

  lemma Halves(items: seq<GoodbyeItem>, l: nat)
    requires Ascends(items) && l < |items|
    ensures Ascends(items[..l]) && Ascends(items[l + 1..])
    ensures forall x <- items[..l] :: x.hash < items[l].hash
    ensures forall x <- items[l + 1..] :: x.hash > items[l].hash
  {
  }

  /** Left of an item are lower hashes, right of it higher ones. */
  lemma {:induction false} PickIsOrdered(r: nat, n: nat, items: seq<GoodbyeItem>, i: nat, j: nat)
    requires i < n && j < n && Below(r, i) && |items| == Size(r, n) && Ascends(items)
    requires Below(2 * i + 1, j) || Below(2 * i + 2, j)
    ensures Below(r, j)
    ensures Below(2 * i + 1, j) ==> Pick(r, n, items, j).hash < Pick(r, n, items, i).hash
    ensures Below(2 * i + 2, j) ==> Pick(r, n, items, j).hash > Pick(r, n, items, i).hash
    decreases n - r
  {
    hide Below, Pick, Ascends;
    BelowGrows(i, j);
    BelowGrows(r, i);
    BelowTransitive(r, i, j);
    PickSide(r, n, items, i);
    PickSide(r, n, items, j);
    OnlyOneSide(i, j);
    var l := Size(2 * r + 1, n);
    Halves(items, l);
    if i != r {
      BelowIsOneSide(r, i);
      if Below(2 * r + 1, i) {
        BelowTransitive(2 * r + 1, i, j);
        PickIsOrdered(2 * r + 1, n, items[..l], i, j);
      } else {
        BelowTransitive(2 * r + 2, i, j);
        PickIsOrdered(2 * r + 2, n, items[l + 1..], i, j);
      }
    }
  }

  /** No item is left out. */
  lemma {:induction false} PickReaches(i: nat, n: nat, items: seq<GoodbyeItem>, k: nat)
    requires |items| == Size(i, n) && k < |items|
    ensures exists p: nat :: p < n && Below(i, p) && Pick(i, n, items, p) == items[k]
    decreases n - i
  {
    var l := Size(2 * i + 1, n);
    if k == l {
      assert Pick(i, n, items, i) == items[k];
    } else if k < l {
      PickReaches(2 * i + 1, n, items[..l], k);
      var p: nat :| p < n && Below(2 * i + 1, p) && Pick(2 * i + 1, n, items[..l], p) == items[k];
      BelowGrows(i, p);
      BelowGrows(2 * i + 1, p);
      assert Pick(i, n, items, p) == items[k];
    } else {
      PickReaches(2 * i + 2, n, items[l + 1..], k - l - 1);
      var p: nat :| p < n && Below(2 * i + 2, p) && Pick(2 * i + 2, n, items[l + 1..], p) == items[k];
      BelowGrows(i, p);
      BelowGrows(2 * i + 2, p);
      OnlyOneSide(i, p);
      assert Pick(i, n, items, p) == items[k];
    }
  }

  function Laid(items: seq<GoodbyeItem>): (table: seq<GoodbyeItem>)
    ensures |table| == |items|
  {
    WholeSize(|items|);
    seq(|items|, p requires 0 <= p < |items| => (EverythingIsBelowRoot(p); Pick(0, |items|, items, p)))
  }

  /** Ascending items, laid out, make a search tree of just these items. */
  lemma LaidIsSearchTree(items: seq<GoodbyeItem>)
    requires Ascends(items)
    ensures SearchTree(Laid(items), |items|)
    ensures forall x :: x in Laid(items) <==> x in items
  {
    var n, table := |items|, Laid(items);
    WholeSize(n);
    forall i: nat, j: nat | i < n && j < n && (Below(2 * i + 1, j) || Below(2 * i + 2, j))
      ensures Below(2 * i + 1, j) ==> table[j].hash < table[i].hash
      ensures Below(2 * i + 2, j) ==> table[j].hash > table[i].hash
    {
      EverythingIsBelowRoot(i);
      PickIsOrdered(0, n, items, i, j);
    }
    forall x | x in items
      ensures x in table
    {
      var k :| 0 <= k < n && items[k] == x;
      PickReaches(0, n, items, k);
      var p: nat :| p < n && Below(0, p) && Pick(0, n, items, p) == items[k];
      assert table[p] == x;
    }
    forall x | x in table
      ensures x in items
    {
      var p: nat :| p < n && table[p] == x;
      EverythingIsBelowRoot(p);
    }
  }

  // The table of a directory.

  /** How many bytes the first entry of a chain takes up. */
  function FirstSize(c: Siblings): nat
    requires c != End
  {
    if c.File? then |Head(c.name, c.mode, c.extra)| + 16 + |c.data|
    else |Head(c.name, c.mode, c.extra)| + |Encode(c.kids)| + |GoodbyeBlock(c.table)|
  }

  /** A child's row: its hash, the way back from the goodbye block to its name, and its length. */
  function ItemOf(hashOf: bytes -> nat, c: Siblings): GoodbyeItem
    requires c != End
  {
    GoodbyeItem(hashOf(c.name), |Encode(c)|, FirstSize(c))
  }

  function Placed(items: seq<GoodbyeItem>, x: GoodbyeItem): (r: seq<GoodbyeItem>)
    ensures |r| == |items| + 1
    ensures forall y :: y in r <==> y in items || y == x
  {
    if items == [] || x.hash < items[0].hash then [x] + items else [items[0]] + Placed(items[1..], x)
  }

  lemma {:induction false} PlacedAscends(items: seq<GoodbyeItem>, x: GoodbyeItem)
    requires Ascends(items) && forall y <- items :: y.hash != x.hash
    ensures Ascends(Placed(items, x))
  {
    hide Ascends;
    if items == [] {
      InFront(x, items);
    } else if x.hash < items[0].hash {
      FirstIsLeast(items);
      InFront(x, items);
    } else {
      FirstIsLeast(items);
      PlacedAscends(items[1..], x);
      assert items[0] in items;
      InFront(items[0], Placed(items[1..], x));
    }
  }

  lemma FirstIsLeast(items: seq<GoodbyeItem>)
    requires Ascends(items) && items != []
    ensures Ascends(items[1..]) && forall y <- items[1..] :: items[0].hash < y.hash
    ensures forall y <- items :: items[0].hash <= y.hash
  {
  }

  lemma InFront(x: GoodbyeItem, items: seq<GoodbyeItem>)
    requires Ascends(items) && forall y <- items :: x.hash < y.hash
    ensures Ascends([x] + items)
  {
  }

  /** One item for each child, in order of hash. */
  function Items(hashOf: bytes -> nat, s: Siblings): seq<GoodbyeItem> {
    if s == End then [] else Placed(Items(hashOf, s.next), ItemOf(hashOf, s))
  }

  lemma {:induction false} ItemsAreChildren(hashOf: bytes -> nat, s: Siblings)
    requires DistinctHashes(hashOf, s)
    ensures Ascends(Items(hashOf, s))
    ensures forall x <- Items(hashOf, s) :: ChildWith(hashOf, s, x.hash) != End
                                         && x == ItemOf(hashOf, ChildWith(hashOf, s, x.hash))
    ensures forall h :: ChildWith(hashOf, s, h) != End ==> ItemOf(hashOf, ChildWith(hashOf, s, h)) in Items(hashOf, s)
    decreases s
  {
    hide Encode;
    if s != End {
      ItemsAreChildren(hashOf, s.next);
      forall x <- Items(hashOf, s.next)
        ensures x.hash != hashOf(s.name)
      {
      }
      PlacedAscends(Items(hashOf, s.next), ItemOf(hashOf, s));
    }
  }

  /** The row that closes a table: the way back to the directory's own entry, and the length of the goodbye block. */
  function TailItem(back: nat, rows: nat): GoodbyeItem {
    GoodbyeItem(GOODBYE_TAIL, back, 16 + 24 * (rows + 1))
  }

  function Table(items: seq<GoodbyeItem>, back: nat): (table: seq<GoodbyeItem>)
    ensures |table| == |items| + 1
  {
    Laid(items) + [TailItem(back, |items|)]
  }

  /** The table of a directory with these children and an entry of this length. */
  function TableFor(hashOf: bytes -> nat, entry: nat, s: Siblings): seq<GoodbyeItem> {
    Table(Items(hashOf, s), entry + |Encode(s)|)
  }

  predicate SmallHashes(hashOf: bytes -> nat, s: Siblings) {
    s == End || (hashOf(s.name) < TWO_64 && SmallHashes(hashOf, s.next))
  }

  lemma {:induction false} SuffixIsShorter(c: Siblings, s: Siblings)
    requires Suffix(c, s)
    ensures |Encode(c)| <= |Encode(s)|
    decreases s
  {
    hide Head, Block, GoodbyeBlock;
    if c != s {
      SuffixIsShorter(c, s.next);
    }
  }

  lemma {:induction false} ChildHash(hashOf: bytes -> nat, s: Siblings, h: nat)
    requires SmallHashes(hashOf, s) && ChildWith(hashOf, s, h) != End
    ensures h < TWO_64
    decreases s
  {
    if hashOf(s.name) != h {
      ChildHash(hashOf, s.next, h);
    }
  }

  lemma FirstFits(c: Siblings, s: Siblings)
    requires Suffix(c, s) && c != End
    ensures FirstSize(c) <= |Encode(c)| <= |Encode(s)|
  {
    hide Head, GoodbyeBlock;
    SuffixIsShorter(c, s);
  }

  lemma RowIsChild(hashOf: bytes -> nat, entry: nat, s: Siblings, i: nat)
    requires DistinctHashes(hashOf, s) && SmallHashes(hashOf, s) && |Encode(s)| <= MAX_INT
    requires i < |TableFor(hashOf, entry, s)| - 1
    ensures var x := TableFor(hashOf, entry, s)[i]; var c := ChildWith(hashOf, s, x.hash);
      c != End && x.offset == |Encode(c)| && x.hash < TWO_64 && x.offset < TWO_64 && x.length < TWO_64
  {
    hide Encode, Laid, Items, DistinctHashes, ChildWith, SmallHashes, SearchTree, Ascends, FirstSize;
    var items := Items(hashOf, s);
    ItemsAreChildren(hashOf, s);
    LaidIsSearchTree(items);
    var x := Laid(items)[i];
    assert TableFor(hashOf, entry, s)[i] == x && x in Laid(items);
    ChildHash(hashOf, s, x.hash);
    FirstFits(ChildWith(hashOf, s, x.hash), s);
  }

  lemma ChildHasRow(hashOf: bytes -> nat, entry: nat, s: Siblings, h: nat)
    requires DistinctHashes(hashOf, s) && ChildWith(hashOf, s, h) != End
    ensures exists i | 0 <= i < |TableFor(hashOf, entry, s)| - 1 :: TableFor(hashOf, entry, s)[i].hash == h
  {
    hide Encode, Laid, Items, DistinctHashes, ChildWith, SearchTree, Ascends, FirstSize;
    var items, x := Items(hashOf, s), ItemOf(hashOf, ChildWith(hashOf, s, h));
    ItemsAreChildren(hashOf, s);
    LaidIsSearchTree(items);
    assert x in Laid(items);
    var i :| 0 <= i < |Laid(items)| && Laid(items)[i] == x;
    assert TableFor(hashOf, entry, s)[i].hash == h;
  }

  lemma TableForIsSearchTree(hashOf: bytes -> nat, entry: nat, s: Siblings)
    requires DistinctHashes(hashOf, s)
    ensures SearchTree(TableFor(hashOf, entry, s), |TableFor(hashOf, entry, s)| - 1)
  {
    hide Encode, Laid, Items, DistinctHashes, ChildWith, SearchTree, Ascends, FirstSize;
    var items := Items(hashOf, s);
    ItemsAreChildren(hashOf, s);
    LaidIsSearchTree(items);
    assert TableFor(hashOf, entry, s)[..|items|] == Laid(items);
    SearchTreePrefix(Laid(items), TableFor(hashOf, entry, s));
  }

  /** The table made for a directory is one the lookup can rely on. */
  lemma TableForIsTableOf(hashOf: bytes -> nat, entry: nat, s: Siblings)
    requires DistinctHashes(hashOf, s) && SmallHashes(hashOf, s)
    requires entry + |Encode(s)| + |GoodbyeBlock(TableFor(hashOf, entry, s))| <= MAX_INT
    ensures TableOf(hashOf, s, TableFor(hashOf, entry, s))
  {
    hide Encode, TableFor, DistinctHashes, ChildWith, SmallHashes, SearchTree, Words;
    var table := TableFor(hashOf, entry, s);
    TailOfTable(hashOf, entry, s);
    TableForIsSearchTree(hashOf, entry, s);
    forall i: nat | i < |table| - 1
      ensures var c := ChildWith(hashOf, s, table[i].hash);
        c != End && table[i].offset == |Encode(c)| && table[i].hash < TWO_64 && table[i].offset < TWO_64
        && table[i].length < TWO_64
    {
      RowIsChild(hashOf, entry, s, i);
    }
    forall h | ChildWith(hashOf, s, h) != End
      ensures exists i | 0 <= i < |table| - 1 :: table[i].hash == h
    {
      ChildHasRow(hashOf, entry, s, h);
    }
    SmallRows(table);
  }

  lemma TailOfTable(hashOf: bytes -> nat, entry: nat, s: Siblings)
    ensures var table := TableFor(hashOf, entry, s);
      table != [] && table[|table| - 1] == GoodbyeItem(GOODBYE_TAIL, entry + |Encode(s)|, |GoodbyeBlock(table)|)
  {
    hide Encode, Items, Laid;
  }

  lemma SmallRows(table: seq<GoodbyeItem>)
    requires table != [] && table[|table| - 1].hash == GOODBYE_TAIL
    requires forall i: nat | i < |table| - 1 ::
      table[i].hash < TWO_64 && table[i].offset < TWO_64 && table[i].length < TWO_64
    requires table[|table| - 1].offset < TWO_64 && table[|table| - 1].length < TWO_64
    ensures Words(table)
  {
  }

  lemma SearchTreePrefix(items: seq<GoodbyeItem>, table: seq<GoodbyeItem>)
    requires |items| <= |table| && table[..|items|] == items && SearchTree(items, |items|)
    ensures SearchTree(table, |items|)
  {
    hide Below;
    assert forall i | 0 <= i < |items| :: table[i] == items[i];
  }

  // Whole trees.

  /** The same tree with the table of every directory filled in. */
  function Tabled(hashOf: bytes -> nat, s: Siblings): (t: Siblings)
    ensures t == End <==> s == End
    ensures s != End ==> t.name == s.name
  {
    match s
    case End => End
    case File(name, mode, extra, data, next) => File(name, mode, extra, data, Tabled(hashOf, next))
    case Dir(name, mode, extra, kids, _, next) =>
      var k := Tabled(hashOf, kids);
      Dir(name, mode, extra, k, TableFor(hashOf, |EntryBlock(mode, extra)|, k), Tabled(hashOf, next))
  }

  function TabledArchive(hashOf: bytes -> nat, a: Archive): Archive {
    var k := Tabled(hashOf, a.kids);
    Archive(a.mode, a.extra, k, TableFor(hashOf, |EntryBlock(a.mode, a.extra)|, k))
  }

  /** Hashes fit their field, and siblings have different ones. */
  predicate Hashable(hashOf: bytes -> nat, s: Siblings) {
    match s
    case End => true
    case File(_, _, _, _, next) => Hashable(hashOf, next)
    case Dir(_, _, _, kids, _, next) =>
      SmallHashes(hashOf, kids) && DistinctHashes(hashOf, kids) && Hashable(hashOf, kids) && Hashable(hashOf, next)
  }

  lemma {:induction false} TabledKeeps(hashOf: bytes -> nat, s: Siblings, h: nat)
    ensures ChildWith(hashOf, Tabled(hashOf, s), h) == Tabled(hashOf, ChildWith(hashOf, s, h))
    decreases s
  {
    hide TableFor;
    if s != End && hashOf(s.name) != h {
      TabledKeeps(hashOf, s.next, h);
    }
  }

  lemma {:induction false} TabledIsAsGood(hashOf: bytes -> nat, s: Siblings)
    ensures WellFormed(Tabled(hashOf, s)) == WellFormed(s)
    ensures SmallHashes(hashOf, Tabled(hashOf, s)) == SmallHashes(hashOf, s)
    ensures DistinctHashes(hashOf, Tabled(hashOf, s)) == DistinctHashes(hashOf, s)
    decreases s
  {
    hide TableFor, ChildWith;
    match s {
      case End =>
      case File(name, _, _, _, next) =>
        TabledIsAsGood(hashOf, next);
        TabledKeeps(hashOf, next, hashOf(name));
      case Dir(name, _, _, kids, _, next) =>
        TabledIsAsGood(hashOf, kids);
        TabledIsAsGood(hashOf, next);
        TabledKeeps(hashOf, next, hashOf(name));
    }
  }

  lemma {:induction false} TabledHasTables(hashOf: bytes -> nat, s: Siblings)
    requires Hashable(hashOf, s) && |Encode(Tabled(hashOf, s))| <= MAX_INT
    ensures GoodTables(hashOf, Tabled(hashOf, s))
    decreases s
  {
    hide TableFor, TableOf, FilenameBlock, EntryBlock, Block, GoodbyeBlock, DistinctHashes, SmallHashes;
    match s {
      case End =>
      case File(_, _, _, _, next) => TabledHasTables(hashOf, next);
      case Dir(_, mode, extra, kids, _, next) =>
        TabledHasTables(hashOf, kids);
        TabledHasTables(hashOf, next);
        TabledIsAsGood(hashOf, kids);
        TableForIsTableOf(hashOf, |EntryBlock(mode, extra)|, Tabled(hashOf, kids));
    }
  }

  /** Tables do not change what a path means. */
  lemma {:induction false} TabledResolves(hashOf: bytes -> nat, s: Siblings, path: seq<bytes>)
    ensures Resolve(hashOf, Tabled(hashOf, s), path) == Resolve(hashOf, s, path)
    decreases |path|
  {
    hide TableFor, ChildWith;
    if path != [] {
      TabledKeeps(hashOf, s, hashOf(path[0]));
      var c := ChildWith(hashOf, s, hashOf(path[0]));
      if c.Dir? && |path| > 1 { TabledResolves(hashOf, c.kids, path[1..]); }
    }
  }

  /** Every tree with distinct hashes can be written so that random access answers for each path what the tree says. */
  lemma EveryTreeCanBeRead(hashOf: bytes -> nat, a: Archive, path: seq<bytes>)
    requires WellFormedArchive(a) && path != [] && |EncodeArchive(TabledArchive(hashOf, a))| <= MAX_INT
    requires SmallHashes(hashOf, a.kids) && DistinctHashes(hashOf, a.kids) && Hashable(hashOf, a.kids)
    ensures WellFormedArchive(TabledArchive(hashOf, a)) && GoodArchiveTables(hashOf, TabledArchive(hashOf, a))
    ensures FindInPxar(hashOf, EncodeArchive(TabledArchive(hashOf, a)), 0, path) == Resolve(hashOf, a.kids, path)
  {
    hide TableFor, TableOf, GoodTables, Encode, EntryBlock, GoodbyeBlock, Resolve, FindInPxar, DistinctHashes,
         SmallHashes, Tabled, Hashable, WellFormed;
    TabledIsAsGood(hashOf, a.kids);
    TabledHasTables(hashOf, a.kids);
    TableForIsTableOf(hashOf, |EntryBlock(a.mode, a.extra)|, Tabled(hashOf, a.kids));
    TabledResolves(hashOf, a.kids, path);
    RandomAccessIsExact(hashOf, TabledArchive(hashOf, a), path);
  }
}
