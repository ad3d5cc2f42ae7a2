/** The goodbye table: a binary search tree laid out in an array, children of `i` at `2i+1` and `2i+2`. */
module GoodbyeSearch {
  import opened PxarFormat

  /** `j` lies in the subtree rooted at `i`. */
  predicate Below(i: nat, j: nat) {
    j == i || (j > i && Below(i, (j - 1) / 2))
  }

  /** Everything left of an item hashes lower and everything right of it higher. */
  ghost predicate SearchTree(items: seq<GoodbyeItem>, n: nat)
    requires n <= |items|
  {
    && (forall i: nat, j: nat | i < n && j < n && Below(2 * i + 1, j) :: items[j].hash < items[i].hash)
    && (forall i: nat, j: nat | i < n && j < n && Below(2 * i + 2, j) :: items[j].hash > items[i].hash)
  }

  lemma {:induction false} BelowIsOneSide(i: nat, j: nat)
    requires Below(i, j) && j != i
    ensures Below(2 * i + 1, j) || Below(2 * i + 2, j)
    decreases j
  {
    if (j - 1) / 2 != i {
      BelowIsOneSide(i, (j - 1) / 2);
    }
  }

  lemma {:induction false} EverythingIsBelowRoot(j: nat)
    ensures Below(0, j)
  {
    if j > 0 {
      EverythingIsBelowRoot((j - 1) / 2);
    }
  }

  /** The number of real items: a closing item with the tail mark is left out of the search. */
  function Searched(items: seq<GoodbyeItem>): (n: nat)
    ensures n <= |items|
  {
    if |items| > 0 && items[|items| - 1].hash == GOODBYE_TAIL then |items| - 1 else |items|
  }

  datatype Found = Found(idx: nat) | NotFound

  function SearchFrom(items: seq<GoodbyeItem>, n: nat, hash: nat, idx: nat): (r: Found)
    requires n <= |items|
    ensures r.Found? ==> r.idx < n && items[r.idx].hash == hash
    decreases n - idx
  {
    if idx >= n then NotFound
    else if items[idx].hash == hash then Found(idx)
    else SearchFrom(items, n, hash, if hash < items[idx].hash then 2 * idx + 1 else 2 * idx + 2)
  }

  function Search(items: seq<GoodbyeItem>, hash: nat): (r: Found)
    ensures r.Found? ==> r.idx < Searched(items) && items[r.idx].hash == hash
  {
    SearchFrom(items, Searched(items), hash, 0)
  }

  method GoodbyeBstFind(items: seq<GoodbyeItem>, hash: nat) returns (r: Found)
    ensures r == Search(items, hash)
    ensures r.Found? ==> r.idx < Searched(items) && items[r.idx].hash == hash
  {
    var n := |items|;
    if n > 0 && items[n - 1].hash == GOODBYE_TAIL { n := n - 1; }
    var idx := 0;
    while idx < n
      invariant Search(items, hash) == SearchFrom(items, n, hash, idx)
      decreases n - idx
    {
      var item := items[idx];
      if item.hash == hash { return Found(idx); }
      if hash < item.hash { idx := 2 * idx + 1; } else { idx := 2 * idx + 2; }
    }
    return NotFound;
  }

  lemma {:induction false} SearchReaches(items: seq<GoodbyeItem>, n: nat, hash: nat, idx: nat, t: nat)
    requires n <= |items| && SearchTree(items, n) && t < n && items[t].hash == hash && Below(idx, t)
    ensures SearchFrom(items, n, hash, idx).Found?
    decreases n - idx
  {
    BelowIsAtLeast(idx, t);
    if items[idx].hash != hash {
      BelowIsOneSide(idx, t);
      SearchReaches(items, n, hash, if hash < items[idx].hash then 2 * idx + 1 else 2 * idx + 2, t);
    }
  }

  lemma {:induction false} BelowIsAtLeast(i: nat, j: nat)
    requires Below(i, j)
    ensures i <= j
  {
  }

  /** On a search tree the search finds a hash exactly when it is there. */
  lemma SearchIsExact(items: seq<GoodbyeItem>, hash: nat)
    requires SearchTree(items, Searched(items))
    ensures Search(items, hash).Found? <==> exists t: nat | t < Searched(items) :: items[t].hash == hash
  {
    if exists t: nat | t < Searched(items) :: items[t].hash == hash {
      var t: nat :| t < Searched(items) && items[t].hash == hash;
      EverythingIsBelowRoot(t);
      SearchReaches(items, Searched(items), hash, 0, t);
    }
  }
}
