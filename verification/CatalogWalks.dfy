/** Which catalogs the walk comes back from. */
module CatalogWalks {
  import opened Bytes
  import opened Options
  import opened Varint
  import opened Catalog
  import D = Didx

  // What a walk comes to depends on positions only.

  /** How a walk ends: with an error, without one, or not within its depth. */
  type Ending = Option<Option<CatalogError>>

  function EndingOf(w: Walked): Ending {
    match w
    case None => None
    case Some(Err(e)) => Some(Some(e))
    case Some(Ok(_)) => Some(None)
  }

  /** Where the subdirectories' tables are claimed to be. */
  function Starts(children: seq<Child>): seq<int> {
    if children == [] then [] else
      (if children[0].isDir then [children[0].dirStart] else []) + Starts(children[1..])
  }

  function Tables(catalog: bytes, start: int): Result<seq<int>> {
    match Listing(catalog, start, [], false)
    case Err(e) => Err(e)
    case Ok(children) => Ok(Starts(children))
  }

  function Ends(catalog: bytes, start: int, depth: nat): Ending
    decreases depth, 0, 0
  {
    if depth == 0 then None else
      match Tables(catalog, start)
      case Err(e) => Some(Some(e))
      case Ok(starts) => AllEnd(catalog, starts, depth - 1)
  }

  function AllEnd(catalog: bytes, starts: seq<int>, depth: nat): Ending
    decreases depth, 1, |starts|
  {
    if starts == [] then Some(None) else
      var first := Ends(catalog, starts[0], depth);
      if first == Some(None) then AllEnd(catalog, starts[1..], depth) else first
  }

  /** Two listings of the same tables. */
  predicate SameStarts(a: Result<seq<Child>>, b: Result<seq<Child>>) {
    match a
    case Err(e) => b == Err(e)
    case Ok(x) => b.Ok? && Starts(x) == Starts(b.value)
  }

  predicate SameRows(a: Result<(seq<Child>, nat)>, b: Result<(seq<Child>, nat)>) {
    match a
    case Err(e) => b == Err(e)
    case Ok((x, end)) => b.Ok? && b.value.1 == end && Starts(x) == Starts(b.value.0)
  }

  lemma {:induction false} StartsAppend(a: seq<Child>, b: seq<Child>)
    ensures Starts(a + b) == Starts(a) + Starts(b)
    decreases |a|
  {
    if a == [] {
      assert a + b == b;
    } else {
      assert (a + b)[0] == a[0] && (a + b)[1..] == a[1..] + b;
      StartsAppend(a[1..], b);
    }
  }

  lemma RowAlike(block: bytes, pos: nat, start: int, p: bytes, r: bool, q: bytes, s: bool)
    ensures var a, b := ReadRow(block, pos, start, p, r), ReadRow(block, pos, start, q, s);
      match a
      case Err(e) => b == Err(e)
      case Ok((child, next)) =>
        b.Ok? && b.value.1 == next && child.Some? == b.value.0.Some?
        && (child.Some? ==> child.value.isDir == b.value.0.value.isDir
                            && child.value.dirStart == b.value.0.value.dirStart)
  {
    hide ReadU64From, ReadI64From, Wrap64, JoinPath, ReadName;
  }

  lemma {:induction false} RowsAlike(block: bytes, pos: nat, count: nat, start: int, p: bytes, r: bool, q: bytes,
                                     s: bool)
    ensures SameRows(Rows(block, pos, count, start, p, r), Rows(block, pos, count, start, q, s))
    decreases count
  {
    hide ReadRow;
    if count > 0 {
      RowAlike(block, pos, start, p, r, q, s);
      var a, b := ReadRow(block, pos, start, p, r), ReadRow(block, pos, start, q, s);
      if a.Ok? {
        var x := if a.value.0.Some? then [a.value.0.value] else [];
        var y := if b.value.0.Some? then [b.value.0.value] else [];
        assert Starts(x) == Starts(y);
        RowsAlike(block, a.value.1, count - 1, start, p, r, q, s);
        var m, n := Rows(block, a.value.1, count - 1, start, p, r), Rows(block, a.value.1, count - 1, start, q, s);
        if m.Ok? {
          StartsAppend(x, m.value.0);
          StartsAppend(y, n.value.0);
        }
      }
    }
  }

  lemma ListingsAlike(catalog: bytes, start: int, p: bytes, r: bool, q: bytes, s: bool)
    ensures SameStarts(Listing(catalog, start, p, r), Listing(catalog, start, q, s))
  {
    hide Rows, Starts, ReadU64From;
    if 0 <= start < |catalog| {
      var table := ReadU64From(catalog, start, 0, 0);
      if table.Got? && table.value <= MAX_INT - table.next && table.next + table.value <= |catalog| {
        var block := catalog[table.next..table.next + table.value];
        var count := ReadU64From(block, 0, 0, 0);
        if count.Got? { RowsAlike(block, count.next, count.value, start, p, r, q, s); }
      }
    }
  }

  /** Names aside, a walk and its position-only form end alike. */
  lemma {:induction false} WalkEnds(catalog: bytes, start: int, prefix: bytes, isRoot: bool, depth: nat)
    ensures EndingOf(Walk(catalog, start, prefix, isRoot, depth)) == Ends(catalog, start, depth)
    decreases depth, 0, 0
  {
    hide Listing, Starts, WalkAll;
    if depth > 0 {
      ListingsAlike(catalog, start, prefix, isRoot, [], false);
      var children := Listing(catalog, start, prefix, isRoot);
      if children.Ok? { WalkAllEnds(catalog, children.value, depth - 1); }
    }
  }

  lemma {:induction false} WalkAllEnds(catalog: bytes, children: seq<Child>, depth: nat)
    ensures EndingOf(WalkAll(catalog, children, depth)) == AllEnd(catalog, Starts(children), depth)
    decreases depth, 1, |children|
  {
    hide Walk, Ends;
    if children != [] {
      var c, rest := children[0], Starts(children[1..]);
      WalkAllEnds(catalog, children[1..], depth);
      if c.isDir {
        WalkEnds(catalog, c.dirStart, c.path, false, depth);
        assert ([c.dirStart] + rest)[1..] == rest;
      } else {
        assert [] + rest == rest;
      }
    }
  }

  // Deeper walks.

  /** A result stays the same however much deeper the walk may go. */
  lemma {:induction false} WalkStays(catalog: bytes, start: int, prefix: bytes, isRoot: bool, depth: nat)
    requires Walk(catalog, start, prefix, isRoot, depth).Some?
    ensures Walk(catalog, start, prefix, isRoot, depth + 1) == Walk(catalog, start, prefix, isRoot, depth)
    decreases depth, 0, 0
  {
    hide Listing, WalkAll;
    var children := Listing(catalog, start, prefix, isRoot);
    if children.Ok? { WalkAllStays(catalog, children.value, depth - 1); }
  }

  lemma {:induction false} WalkAllStays(catalog: bytes, children: seq<Child>, depth: nat)
    requires WalkAll(catalog, children, depth).Some?
    ensures WalkAll(catalog, children, depth + 1) == WalkAll(catalog, children, depth)
    decreases depth, 1, |children|
  {
    hide Walk;
    if children != [] {
      var c := children[0];
      if c.isDir { WalkStays(catalog, c.dirStart, c.path, false, depth); }
      if WalkChild(catalog, c, depth).value.Ok? { WalkAllStays(catalog, children[1..], depth); }
    }
  }

  lemma {:induction false} WalkStaysUpTo(catalog: bytes, start: int, prefix: bytes, isRoot: bool, depth: nat, more: nat)
    requires depth <= more && Walk(catalog, start, prefix, isRoot, depth).Some?
    ensures Walk(catalog, start, prefix, isRoot, more) == Walk(catalog, start, prefix, isRoot, depth)
    decreases more - depth
  {
    hide Walk;
    if depth < more {
      WalkStays(catalog, start, prefix, isRoot, depth);
      WalkStaysUpTo(catalog, start, prefix, isRoot, depth + 1, more);
    }
  }

  lemma EndingStays(catalog: bytes, start: int, depth: nat)
    requires Ends(catalog, start, depth).Some?
    ensures Ends(catalog, start, depth + 1) == Ends(catalog, start, depth)
  {
    hide Walk, Ends;
    WalkEnds(catalog, start, [], false, depth);
    WalkEnds(catalog, start, [], false, depth + 1);
    WalkStays(catalog, start, [], false, depth);
  }

  /** The positions whose walk does not end within the depth. */
  ghost function Stuck(catalog: bytes, depth: nat): set<int> {
    set p: int | 0 <= p < |catalog| && Ends(catalog, p, depth) == None
  }

  /** One level more makes no difference from here. */
  ghost predicate SameDeeper(catalog: bytes, p: int, depth: nat) {
    Ends(catalog, p, depth + 1) == Ends(catalog, p, depth)
  }

  lemma OutsideEnds(catalog: bytes, start: int, depth: nat)
    requires depth > 0 && !(0 <= start < |catalog|)
    ensures Ends(catalog, start, depth) == Some(Some(OutOfRange))
  {
  }

  /** Where one more level helped nobody, no further level will. */
  lemma StuckForGood(catalog: bytes, depth: nat, start: int)
    requires depth > 0 && Stuck(catalog, depth + 1) == Stuck(catalog, depth)
    ensures Ends(catalog, start, depth + 2) == Ends(catalog, start, depth + 1)
    ensures Stuck(catalog, depth + 2) == Stuck(catalog, depth + 1)
  {
    hide Tables, Ends;
    forall p: int
      ensures SameDeeper(catalog, p, depth)
    {
      if 0 <= p < |catalog| {
        if Ends(catalog, p, depth).Some? {
          EndingStays(catalog, p, depth);
        } else {
          assert p in Stuck(catalog, depth);
          assert p in Stuck(catalog, depth + 1);
        }
      } else {
        OutsideEnds(catalog, p, depth);
        OutsideEnds(catalog, p, depth + 1);
      }
    }
    var next := depth + 1;
    forall p: int
      ensures SameDeeper(catalog, p, next)
    {
      OneLevelUp(catalog, p, depth);
    }
    assert SameDeeper(catalog, start, next);
    StuckShrinks(catalog, next);
    forall p <- Stuck(catalog, next)
      ensures p in Stuck(catalog, next + 1)
    {
      assert SameDeeper(catalog, p, next);
    }
  }

  lemma OneLevelUp(catalog: bytes, start: int, depth: nat)
    requires forall p: int :: SameDeeper(catalog, p, depth)
    ensures Ends(catalog, start, depth + 2) == Ends(catalog, start, depth + 1)
  {
    hide Tables;
    if Tables(catalog, start).Ok? { AllOneLevelUp(catalog, Tables(catalog, start).value, depth); }
  }

  lemma {:induction false} AllOneLevelUp(catalog: bytes, starts: seq<int>, depth: nat)
    requires forall p: int :: SameDeeper(catalog, p, depth)
    ensures AllEnd(catalog, starts, depth + 1) == AllEnd(catalog, starts, depth)
    decreases |starts|
  {
    hide Ends;
    if starts != [] {
      assert SameDeeper(catalog, starts[0], depth);
      AllOneLevelUp(catalog, starts[1..], depth);
    }
  }

  lemma StuckShrinks(catalog: bytes, depth: nat)
    ensures Stuck(catalog, depth + 1) <= Stuck(catalog, depth)
  {
    hide Ends;
    forall p <- Stuck(catalog, depth + 1)
      ensures p in Stuck(catalog, depth)
    {
      if Ends(catalog, p, depth).Some? { EndingStays(catalog, p, depth); }
    }
  }

  /** With every level fewer positions are stuck, or it is the same ones for good. */
  lemma {:induction false} StuckCount(catalog: bytes, depth: nat)
    requires depth > 0
    ensures |Stuck(catalog, depth)| <= |catalog| + 1 - depth || Stuck(catalog, depth + 1) == Stuck(catalog, depth)
    decreases depth
  {
    hide Ends;
    StuckShrinks(catalog, depth);
    if depth == 1 {
      CountInRange(Stuck(catalog, 1), |catalog|);
    } else {
      StuckCount(catalog, depth - 1);
      StuckShrinks(catalog, depth - 1);
      if Stuck(catalog, depth) == Stuck(catalog, depth - 1) {
        StuckForGood(catalog, depth - 1, 0);
      } else {
        SmallerSet(Stuck(catalog, depth), Stuck(catalog, depth - 1));
      }
    }
  }

  lemma SmallerSet(a: set<int>, b: set<int>)
    requires a < b
    ensures |a| < |b|
  {
    assert |b - a| > 0;
    assert b == a + (b - a);
  }

  lemma {:induction false} CountInRange(s: set<int>, n: nat)
    requires forall p <- s :: 0 <= p < n
    ensures |s| <= n
  {
    if n == 0 {
      assert forall p :: p !in s;
      assert s == {};
    } else {
      CountInRange(s - {n - 1}, n - 1);
    }
  }

  lemma {:induction false} EndingSettled(catalog: bytes, start: int, depth: nat)
    requires depth > |catalog|
    ensures Stuck(catalog, depth + 1) == Stuck(catalog, depth)
    ensures Ends(catalog, start, depth) == Ends(catalog, start, |catalog| + 1)
    decreases depth
  {
    hide Ends;
    if depth == |catalog| + 1 {
      StuckCount(catalog, depth);
      StuckShrinks(catalog, depth);
      if |Stuck(catalog, depth)| == 0 { assert Stuck(catalog, depth) == {}; }
    } else {
      EndingSettled(catalog, start, depth - 1);
      StuckForGood(catalog, depth - 1, start);
      SameAtOneMore(catalog, start, depth - 1);
    }
  }

  lemma SameAtOneMore(catalog: bytes, start: int, depth: nat)
    requires depth > 0 && Stuck(catalog, depth + 1) == Stuck(catalog, depth)
    ensures Ends(catalog, start, depth + 1) == Ends(catalog, start, depth)
  {
    hide Ends;
    if Ends(catalog, start, depth).Some? {
      EndingStays(catalog, start, depth);
    } else if 0 <= start < |catalog| {
      assert start in Stuck(catalog, depth + 1);
    } else {
      OutsideEnds(catalog, start, depth);
    }
  }

  /**
   A walk never comes back, whatever the depth, exactly if it does not within one call more than the catalog has
   bytes; and all walks that come back do so with the same result.
   */
  lemma ComesBackExactly(catalog: bytes, start: int, prefix: bytes, isRoot: bool)
    ensures (forall depth: nat :: Walk(catalog, start, prefix, isRoot, depth) == None)
       <==> Walk(catalog, start, prefix, isRoot, |catalog| + 1) == None
    ensures forall depth: nat | Walk(catalog, start, prefix, isRoot, depth).Some? ::
      Walk(catalog, start, prefix, isRoot, depth) == Walk(catalog, start, prefix, isRoot, |catalog| + 1)
  {
    hide Walk, Ends;
    var n := |catalog| + 1;
    forall depth: nat
      | Walk(catalog, start, prefix, isRoot, depth).Some? && Walk(catalog, start, prefix, isRoot, n).Some?
      ensures Walk(catalog, start, prefix, isRoot, depth) == Walk(catalog, start, prefix, isRoot, n)
    {
      if depth <= n {
        WalkStaysUpTo(catalog, start, prefix, isRoot, depth, n);
      } else {
        WalkStaysUpTo(catalog, start, prefix, isRoot, n, depth);
      }
    }
    WalkEnds(catalog, start, prefix, isRoot, n);
    if Walk(catalog, start, prefix, isRoot, n) == None {
      forall depth: nat
        ensures Walk(catalog, start, prefix, isRoot, depth) == None
      {
        WalkEnds(catalog, start, prefix, isRoot, depth);
        if depth >= n { EndingSettled(catalog, start, depth); } else { StuckEarlier(catalog, start, depth, n); }
      }
    }
  }

  lemma {:induction false} StuckEarlier(catalog: bytes, start: int, depth: nat, later: nat)
    requires depth <= later && Ends(catalog, start, later) == None
    ensures Ends(catalog, start, depth) == None
    decreases later - depth
  {
    hide Ends;
    if depth < later {
      StuckEarlier(catalog, start, depth + 1, later);
      if Ends(catalog, start, depth).Some? { EndingStays(catalog, start, depth); }
    }
  }

  // Tables that refer to themselves, and tables that refer backwards.

  /** The first subdirectory of a table is the table itself: the walk does not come back. */
  lemma {:induction false} OwnChildNeverReturns(catalog: bytes, start: int, prefix: bytes, isRoot: bool, depth: nat)
    requires Tables(catalog, start).Ok? && Tables(catalog, start).value != []
    requires Tables(catalog, start).value[0] == start
    ensures Walk(catalog, start, prefix, isRoot, depth) == None
    decreases depth
  {
    hide Walk, Tables;
    WalkEnds(catalog, start, prefix, isRoot, depth);
    if depth > 0 {
      OwnChildNeverReturns(catalog, start, prefix, isRoot, depth - 1);
      WalkEnds(catalog, start, prefix, isRoot, depth - 1);
    }
  }

  /** The table of a directory whose one entry is a directory at distance 0 or 6. */
  function OneDirTable(rel: byte): bytes {
    [5, 1, KIND_DIR, 1, 97, rel]
  }

  /**
   What the writer leaves of a backup whose only entry is a directory it could not read: a table with that directory
   at distance 0, and the root table behind it.
   */
  function UnreadableOnly(): bytes {
    D.CATALOG_MAGIC + (OneDirTable(0) + (OneDirTable(6) + LE64(14)))
  }

  lemma OneDirListed(catalog: bytes, start: nat, rel: byte, prefix: bytes, isRoot: bool)
    requires At(catalog, start, OneDirTable(rel)) && rel <= start <= 100 && rel < 128
    ensures var children := Listing(catalog, start, prefix, isRoot);
      children.Ok? && |children.value| == 1 && children.value[0].isDir && children.value[0].dirStart == start - rel
  {
    hide JoinPath;
    var block := OneDirTable(rel)[1..];
    assert catalog[start..start + 6] == OneDirTable(rel);
    assert catalog[start] == 5 && catalog[start + 1..start + 6] == block;
    assert Pow128(0) == 1;
    assert ReadU64From(catalog, start, 0, 0) == Got(5, start + 1);
    assert ReadU64From(block, 0, 0, 0) == Got(1, 1) && ReadU64From(block, 2, 0, 0) == Got(1, 3);
    assert ReadU64From(block, 4, 0, 0) == Got(rel, 5);
    assert ReadName(block, 2) == Ok(([97], 4)) by { assert block[3..4] == [97]; }
    assert Wrap64(rel) == rel && WrapStart(start, rel) == start - rel;
    var row := ReadRow(block, 1, start, prefix, isRoot);
    assert row.Ok? && row.value.1 == 5 && row.value.0.Some? && row.value.0.value.dirStart == start - rel;
    assert Rows(block, 5, 0, start, prefix, isRoot) == Ok(([], 5));
    assert Rows(block, 1, 1, start, prefix, isRoot) == Ok(([row.value.0.value] + [], 5));
  }

  /** Such a catalog has no end. */
  lemma UnreadableNeverReturns(depth: nat)
    ensures AllEntries(UnreadableOnly(), depth) == None
  {
    hide Listing, Walk, LE64;
    var catalog := UnreadableOnly();
    assert |catalog| == 28 && D.CATALOG_MAGIC <= catalog;
    assert catalog[8..14] == OneDirTable(0) && catalog[14..20] == OneDirTable(6);
    assert catalog[20..28] == LE64(14);
    AtU64(catalog, 20, 14);
    OneDirListed(catalog, 14, 6, [], true);
    OneDirListed(catalog, 8, 0, [], false);
    var children := Listing(catalog, 8, [], false).value;
    assert children[1..] == [] && Starts([]) == [] && Starts(children) == [8];
    OwnChildNeverReturns(catalog, 8, [], false, depth);
  }

  /** Every table refers to tables in front of it. */
  ghost predicate Backwards(catalog: bytes) {
    forall p: int | Tables(catalog, p).Ok? :: forall at <- Tables(catalog, p).value :: at < p
  }

  lemma {:induction false} BackwardsEnds(catalog: bytes, start: int, depth: nat)
    requires Backwards(catalog) && depth > 0 && depth > start + 1
    ensures Ends(catalog, start, depth).Some?
    decreases depth, 0, 0
  {
    hide Tables;
    if 0 <= start < |catalog| {
      if Tables(catalog, start).Ok? { AllBackwards(catalog, Tables(catalog, start).value, start, depth - 1); }
    } else {
      OutsideEnds(catalog, start, depth);
    }
  }

  lemma {:induction false} AllBackwards(catalog: bytes, starts: seq<int>, start: int, depth: nat)
    requires Backwards(catalog) && depth > start >= 0 && forall at <- starts :: at < start
    ensures AllEnd(catalog, starts, depth).Some?
    decreases depth, 1, |starts|
  {
    hide Ends, Backwards;
    if starts != [] {
      assert starts[0] in starts;
      BackwardsEnds(catalog, starts[0], depth);
      assert forall at <- starts[1..] :: at in starts;
      AllBackwards(catalog, starts[1..], start, depth);
    }
  }

  /** From a catalog whose tables all refer backwards every walk comes back, no deeper than where it started. */
  lemma BackwardsReturns(catalog: bytes, start: int, prefix: bytes, isRoot: bool, depth: nat)
    requires Backwards(catalog) && depth > 0 && depth > start + 1
    ensures Walk(catalog, start, prefix, isRoot, depth).Some?
  {
    hide Walk, Ends, Backwards;
    BackwardsEnds(catalog, start, depth);
    WalkEnds(catalog, start, prefix, isRoot, depth);
  }
}
