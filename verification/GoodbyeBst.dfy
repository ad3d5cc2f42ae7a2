/** How the archive writer lays sorted rows out in the array, and that this is the tree the lookup searches. */
module GoodbyeBst {
  import opened PxarFormat
  import opened GoodbyeSearch
  import opened GoodbyeTables

  function Pow2(e: nat): (p: nat)
    ensures p >= 1
  {
    if e == 0 then 1 else 2 * Pow2(e - 1)
  }

  /** One more than the position of the highest bit, and 0 for 0. */
  function Height(n: nat): (e: nat)
    ensures n == 0 <==> e == 0
    ensures n > 0 ==> Pow2(e - 1) <= n < Pow2(e)
  {
    if n == 0 then 0 else if n == 1 then 1 else Height(n / 2) + 1
  }

  /** The subtree at `i` of an array of `n` has its first `e - 1` levels full and none beyond the next. */
  predicate Shaped(i: nat, n: nat, e: nat) {
    && (e >= 2 ==> n >= Pow2(e - 2) * (i + 2) - 1)
    && n <= Pow2(e) * (i + 1) - 1
  }

  function Clip(x: int, top: nat): nat {
    if x < 0 then 0 else if x > top then top else x
  }

  /** How many positions such a subtree has: full levels, and what there is of the last. */
  function Positions(i: nat, n: nat, e: nat): nat {
    if e == 0 then 0 else Pow2(e - 1) - 1 + Clip(n - (Pow2(e - 1) * (i + 1) - 1), Pow2(e - 1))
  }

  lemma PowTimes(e: nat, i: nat)
    requires e >= 1
    ensures Pow2(e) * (i + 1) == Pow2(e - 1) * (2 * i + 2)
    ensures Pow2(e - 1) * (2 * i + 3) == Pow2(e - 1) * (2 * i + 2) + Pow2(e - 1)
    ensures Pow2(e - 1) * (2 * i + 4) == Pow2(e) * (i + 2)
  {
    assert Pow2(e) == 2 * Pow2(e - 1);
  }

  lemma SidesAreShaped(i: nat, n: nat, e: nat)
    requires e >= 1 && Shaped(i, n, e)
    ensures Shaped(2 * i + 1, n, e - 1) && Shaped(2 * i + 2, n, e - 1)
  {
    PowTimes(e, i);
    if e >= 3 {
      PowTimes(e - 2, i);
    }
  }

  /** The closed form counts what the recursion over the subtree counts. */
  lemma {:induction false} PositionsAreSize(i: nat, n: nat, e: nat)
    requires Shaped(i, n, e)
    ensures Size(i, n) == Positions(i, n, e)
    decreases e
  {
    if e == 0 {
    } else {
      SidesAreShaped(i, n, e);
      PositionsAreSize(2 * i + 1, n, e - 1);
      PositionsAreSize(2 * i + 2, n, e - 1);
      PowTimes(e, i);
      SidesSum(i, n, e);
    }
  }

  lemma SidesSum(i: nat, n: nat, e: nat)
    requires e >= 1 && Shaped(i, n, e)
    ensures if i >= n then Positions(i, n, e) == 0
            else Positions(i, n, e) == Positions(2 * i + 1, n, e - 1) + 1 + Positions(2 * i + 2, n, e - 1)
  {
    if e >= 2 {
      var p, lo := Pow2(e - 2), Pow2(e - 1) * (i + 1);
      PowTimes(e - 1, i);
      assert lo == p * (2 * i + 2) && p * (2 * i + 3) == lo + p && Pow2(e - 1) == 2 * p;
      ClipSplits(n - (lo - 1), p);
      FullLevelCovers(p, i, n);
    }
  }

  lemma ClipSplits(x: int, p: nat)
    ensures Clip(x, 2 * p) == Clip(x, p) + Clip(x - p, p)
  {
  }

  lemma FullLevelCovers(p: nat, i: nat, n: nat)
    requires p >= 1 && n >= p * (i + 2) - 1
    ensures i < n
  {
    assert p * (i + 2) >= i + 2;
  }

  /** How many rows go to the left of the root: the writer's case distinction. */
  function LeftOf(n: nat, e: nat): int
    requires e >= 1
  {
    var p, q := Pow2(e - 1), Pow2(e);
    if n >= p - 1 + p / 2 then (q - 2) / 2 else (q - 2) / 2 - (p - 1 + p / 2 - n)
  }

  lemma LeftIsSize(i: nat, n: nat, e: nat)
    requires e >= 1 && Shaped(i, n, e) && i < n
    ensures LeftOf(Size(i, n), e) == Size(2 * i + 1, n) < Size(i, n)
    ensures Size(2 * i + 2, n) == Size(i, n) - Size(2 * i + 1, n) - 1
  {
    hide Shaped;
    PositionsAreSize(i, n, e);
    SidesAreShaped(i, n, e);
    PositionsAreSize(2 * i + 1, n, e - 1);
    LeftIsPositions(i, n, e);
  }

  lemma LeftIsPositions(i: nat, n: nat, e: nat)
    requires e >= 1 && Shaped(i, n, e) && i < n
    ensures LeftOf(Positions(i, n, e), e) == Positions(2 * i + 1, n, e - 1)
  {
    if e >= 2 {
      PowTimes(e - 1, i);
      LeftOfClip(Pow2(e - 2), n - (Pow2(e - 1) * (i + 1) - 1));
    }
  }

  lemma LeftOfClip(p: nat, x: int)
    requires p >= 1
    ensures var n := 2 * p - 1 + Clip(x, 2 * p);
      (if n >= 2 * p - 1 + p then 2 * p - 1 else 2 * p - 1 - (2 * p - 1 + p - n)) == p - 1 + Clip(x, p)
  {
  }

  lemma NothingBelow(i: nat, n: nat)
    requires Size(i, n) == 0
    ensures forall p: nat | p < n :: !Below(i, p)
  {
    forall p: nat | p < n
      ensures !Below(i, p)
    {
      BelowGrows(i, p);
    }
  }

  lemma SomethingBelow(i: nat, n: nat, e: nat)
    requires Size(i, n) > 0 && Shaped(i, n, e)
    ensures i < n && e >= 1
  {
  }

  /** Where a position below `i` lies, and which row is picked for it. */
  lemma PickedFrom(i: nat, n: nat, items: seq<GoodbyeItem>, p: nat)
    requires i < n && p < n && |items| == Size(i, n) && Size(2 * i + 1, n) < |items|
    requires Size(2 * i + 2, n) == |items| - Size(2 * i + 1, n) - 1
    ensures Below(i, p) <==> p == i || Below(2 * i + 1, p) || Below(2 * i + 2, p)
    ensures !(Below(2 * i + 1, p) && Below(2 * i + 2, p)) && !Below(2 * i + 1, i) && !Below(2 * i + 2, i)
    ensures p == i ==> Below(i, p) && Pick(i, n, items, p) == items[Size(2 * i + 1, n)]
    ensures Below(2 * i + 1, p) ==> Pick(i, n, items, p) == Pick(2 * i + 1, n, items[..Size(2 * i + 1, n)], p)
    ensures Below(2 * i + 2, p) ==> Pick(i, n, items, p) == Pick(2 * i + 2, n, items[Size(2 * i + 1, n) + 1..], p)
  {
    hide Pick, Size;
    BelowGrows(i, p);
    BelowGrows(2 * i + 1, i);
    BelowGrows(2 * i + 2, i);
    OnlyOneSide(i, p);
    if Below(i, p) {
      PickSide(i, n, items, p);
      if p != i { BelowIsOneSide(i, p); }
    }
  }

  /** The subtree at `i` has been filled with these rows, and nothing else has changed. */
  ghost predicate Filled(i: nat, rows: seq<GoodbyeItem>, before: seq<GoodbyeItem>, after: seq<GoodbyeItem>)
    requires |rows| == Size(i, |before|)
  {
    |after| == |before| &&
    forall p: nat | p < |after| :: after[p] == if Below(i, p) then Pick(i, |before|, rows, p) else before[p]
  }

  lemma FilledInParts(i: nat, rows: seq<GoodbyeItem>, k: nat, a: seq<GoodbyeItem>, b: seq<GoodbyeItem>,
                      c: seq<GoodbyeItem>)
    requires i < |a| && |rows| == Size(i, |a|) && k == Size(2 * i + 1, |a|) < |rows|
    requires |rows| - k - 1 == Size(2 * i + 2, |a|)
    requires Filled(2 * i + 1, rows[..k], a[i := rows[k]], b) && Filled(2 * i + 2, rows[k + 1..], b, c)
    ensures Filled(i, rows, a, c)
  {
    hide Size, Pick, Below;
    forall p: nat | p < |c|
      ensures c[p] == if Below(i, p) then Pick(i, |a|, rows, p) else a[p]
    {
      PickedFrom(i, |a|, rows, p);
    }
  }

  /** `make_bst_inner`: a middle row goes to position `i`, the lower ones to its left side, the higher to its right. */
  method MakeBstInner(input: seq<GoodbyeItem>, n: nat, e: nat, output: array<GoodbyeItem>, i: nat)
    requires n <= |input| && Shaped(i, output.Length, e) && n == Size(i, output.Length)
    modifies output
    ensures Filled(i, input[..n], old(output[..]), output[..])
    decreases e
  {
    hide Size, Shaped, LeftOf, Pick, Below, Filled;
    if n == 0 {
      NothingFilled(i, output[..]);
      assert input[..n] == [];
      return;
    }
    SomethingBelow(i, output.Length, e);
    LeftIsSize(i, output.Length, e);
    SidesAreShaped(i, output.Length, e);
    var p, q := Pow2(e - 1), Pow2(e);
    var k := (q - 2) / 2;
    if n < p - 1 + p / 2 { k := k - (p - 1 + p / 2 - n); }
    assert k == LeftOf(n, e) by { LeftIs(n, e); }
    ghost var a := output[..];
    output[i] := input[k];
    assert output[..] == a[i := input[k]];
    MakeBstInner(input, k, e - 1, output, 2 * i + 1);
    ghost var b := output[..];
    MakeBstInner(input[k + 1..], n - k - 1, e - 1, output, 2 * i + 2);
    assert input[..n][..k] == input[..k] && input[..n][k + 1..] == input[k + 1..][..n - k - 1];
    FilledInParts(i, input[..n], k, a, b, output[..]);
  }

  lemma NothingFilled(i: nat, a: seq<GoodbyeItem>)
    requires Size(i, |a|) == 0
    ensures Filled(i, [], a, a)
  {
    NothingBelow(i, |a|);
  }

  lemma LeftIs(n: nat, e: nat)
    requires e >= 1
    ensures var p, q := Pow2(e - 1), Pow2(e);
      LeftOf(n, e) == if n < p - 1 + p / 2 then (q - 2) / 2 - (p - 1 + p / 2 - n) else (q - 2) / 2
  {
  }

  lemma WholeIsShaped(n: nat)
    ensures Shaped(0, n, Height(n)) && Size(0, n) == n
  {
    WholeSize(n);
    if n > 1 { PowTimes(Height(n) - 1, 0); }
  }

  /** `ca_make_bst`: the rows as the lookup wants them. */
  method MakeBst(input: seq<GoodbyeItem>) returns (table: seq<GoodbyeItem>)
    ensures table == Laid(input)
  {
    hide Shaped, Size, Height, Below, Pick;
    var n := |input|;
    var output := new GoodbyeItem[n](_ => GoodbyeItem(0, 0, 0));
    WholeIsShaped(n);
    MakeBstInner(input, n, Height(n), output, 0);
    assert input[..n] == input;
    forall p: nat | p < n
      ensures output[p] == Laid(input)[p]
    {
      EverythingIsBelowRoot(p);
    }
    return output[..];
  }

  // The goodbye rows are turned round at the end.

  /** The rows with each position replaced by its distance back from `pos`. */
  function Turned(rows: seq<GoodbyeItem>, pos: nat): (r: seq<GoodbyeItem>)
    requires forall x <- rows :: x.offset <= pos
    ensures |r| == |rows|
  {
    seq(|rows|, i requires 0 <= i < |rows| => rows[i].(offset := pos - rows[i].offset))
  }

  lemma TurnedOneMore(rows: seq<GoodbyeItem>, x: GoodbyeItem, pos: nat)
    requires (forall y <- rows :: y.offset <= pos) && x.offset <= pos
    ensures Turned(rows + [x], pos) == Turned(rows, pos) + [x.(offset := pos - x.offset)]
  {
  }

  lemma TurnedPart(items: seq<GoodbyeItem>, pos: nat, l: nat)
    requires l <= |items| && forall x <- items :: x.offset <= pos
    ensures (forall x <- items[..l] :: x.offset <= pos) && forall x <- items[l..] :: x.offset <= pos
    ensures Turned(items, pos)[..l] == Turned(items[..l], pos) && Turned(items, pos)[l..] == Turned(items[l..], pos)
    ensures l < |items| ==> Turned(items, pos)[l] == items[l].(offset := pos - items[l].offset)
  {
  }

  lemma {:induction false} TurnedPick(i: nat, n: nat, items: seq<GoodbyeItem>, p: nat, pos: nat)
    requires p < n && Below(i, p) && |items| == Size(i, n) && forall x <- items :: x.offset <= pos
    ensures Pick(i, n, Turned(items, pos), p) == Pick(i, n, items, p).(offset := pos - Pick(i, n, items, p).offset)
    decreases n - i
  {
    hide Below, Pick, Turned;
    BelowGrows(i, p);
    PickSide(i, n, items, p);
    PickSide(i, n, Turned(items, pos), p);
    var l := Size(2 * i + 1, n);
    TurnedPart(items, pos, l);
    if p != i {
      BelowIsOneSide(i, p);
      if Below(2 * i + 1, p) {
        TurnedPick(2 * i + 1, n, items[..l], p, pos);
      } else {
        TurnedPart(items, pos, l + 1);
        TurnedPick(2 * i + 2, n, items[l + 1..], p, pos);
      }
    }
  }

  lemma TurnedLaid(items: seq<GoodbyeItem>, pos: nat)
    requires forall x <- items :: x.offset <= pos
    ensures forall x <- Laid(items) :: x.offset <= pos
    ensures Turned(Laid(items), pos) == Laid(Turned(items, pos))
  {
    var n := |items|;
    WholeSize(n);
    forall p | 0 <= p < n
      ensures Laid(items)[p].offset <= pos
      ensures Turned(Laid(items), pos)[p] == Laid(Turned(items, pos))[p]
    {
      EverythingIsBelowRoot(p);
      TurnedPick(0, n, items, p, pos);
    }
  }

  lemma {:induction false} TurnedPlaced(items: seq<GoodbyeItem>, x: GoodbyeItem, pos: nat)
    requires (forall y <- items :: y.offset <= pos) && x.offset <= pos
    ensures Turned(Placed(items, x), pos) == Placed(Turned(items, pos), x.(offset := pos - x.offset))
    decreases |items|
  {
    var turned := Turned(items, pos);
    if items != [] {
      assert turned[1..] == Turned(items[1..], pos);
      TurnedPlaced(items[1..], x, pos);
      var more := Placed(items[1..], x);
      assert Turned([items[0]] + more, pos) == [turned[0]] + Turned(more, pos);
    }
  }

  /** Rows in order of hash. */
  function Sorted(rows: seq<GoodbyeItem>): (r: seq<GoodbyeItem>)
    ensures |r| == |rows|
  {
    if rows == [] then [] else Placed(Sorted(rows[1..]), rows[0])
  }

  lemma {:induction false} SortedIsMade(rows: seq<GoodbyeItem>)
    ensures forall x :: x in Sorted(rows) <==> x in rows
  {
    if rows != [] {
      SortedIsMade(rows[1..]);
      assert rows == [rows[0]] + rows[1..];
    }
  }

  lemma {:induction false} TurnedSorted(rows: seq<GoodbyeItem>, pos: nat)
    requires forall x <- rows :: x.offset <= pos
    ensures forall x <- Sorted(rows) :: x.offset <= pos
    ensures Turned(Sorted(rows), pos) == Sorted(Turned(rows, pos))
    decreases |rows|
  {
    SortedIsMade(rows);
    if rows != [] {
      assert Turned(rows, pos)[1..] == Turned(rows[1..], pos);
      TurnedSorted(rows[1..], pos);
      SortedIsMade(rows[1..]);
      TurnedPlaced(Sorted(rows[1..]), rows[0], pos);
    }
  }

  /** `sort.Slice` by hash. */
  method SortByHash(rows: seq<GoodbyeItem>) returns (sorted: seq<GoodbyeItem>)
    ensures sorted == Sorted(rows)
  {
    sorted := [];
    var i := |rows|;
    assert rows[i..] == [];
    while i > 0
      invariant 0 <= i <= |rows| && sorted == Sorted(rows[i..])
    {
      i := i - 1;
      assert rows[i..][1..] == rows[i + 1..];
      sorted := Placed(sorted, rows[i]);
    }
    assert rows[0..] == rows;
  }
}
