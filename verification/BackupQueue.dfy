/**
 The shared queue of pending backups: two files, each replaced in one step, and a crash
 possible between any two replacements.
 */
module BackupQueue {
  datatype Item = Item(jobID: string, slotKey: string, enqueuedAt: int, forceFull: bool, fromQueue: bool)

  /** The in-flight file: missing, unreadable, or the item that was taken from the queue. */
  datatype Marker = NoMarker | Corrupt | Marked(item: Item)

  datatype Disk = Disk(queue: seq<Item>, marker: Marker)

  const MAX_QUEUE_ITEMS: nat := 1000

  function DedupeKey(item: Item): string {
    if item.slotKey != "" then item.jobID + "|" + item.slotKey else ""
  }

  /** The code's test for "this item again". */
  predicate Same(it: Item, want: Item) {
    || (DedupeKey(want) != "" && DedupeKey(it) == DedupeKey(want))
    || (it.jobID == want.jobID && it.slotKey == want.slotKey && it.enqueuedAt == want.enqueuedAt)
  }

  predicate Contains(items: seq<Item>, want: Item) {
    exists it <- items :: Same(it, want)
  }

  lemma SameIsEquivalence(a: Item, b: Item, c: Item)
    ensures Same(a, a)
    ensures Same(a, b) ==> Same(b, a)
    ensures Same(a, b) && Same(b, c) ==> Same(a, c)
  {
  }

  // The durable writes of each operation, in order.

  /** What is on disk after the first `n` of these writes. */
  function After(d: Disk, writes: seq<Disk>, n: nat): Disk {
    if n == 0 || writes == [] then d else writes[(if n < |writes| then n else |writes|) - 1]
  }

  /** Putting back an item that was left in flight. */
  function OrphanWrites(d: Disk): seq<Disk> {
    match d.marker
    case NoMarker => []
    case Corrupt => [Disk(d.queue, NoMarker)]
    case Marked(x) =>
      if Contains(d.queue, x) then [Disk(d.queue, NoMarker)]
      else [Disk([x] + d.queue, d.marker), Disk([x] + d.queue, NoMarker)]
  }

  /** What an undisturbed reconcile leaves. */
  function Recovered(d: Disk): Disk {
    After(d, OrphanWrites(d), |OrphanWrites(d)|)
  }

  /** Taking the head: first the marker, then the queue without it. */
  function ClaimWrites(d: Disk, lockHeld: bool): seq<Disk> {
    var q := Recovered(d).queue;
    if d.marker.Marked? && lockHeld then []
    else if d.marker.Corrupt? || q == [] then OrphanWrites(d)
    else OrphanWrites(d) + [Disk(q, Marked(q[0])), Disk(q[1..], Marked(q[0]))]
  }

  datatype Claim = Claimed(item: Item) | Empty | Refused | Stopped

  class QueueFiles {
    var queue: seq<Item>
    var marker: Marker
    /** How many more writes succeed before the machine or the disk gives out. */
    var budget: nat

    function OnDisk(): Disk
      reads this
    {
      Disk(queue, marker)
    }

    constructor ()
      ensures OnDisk() == Disk([], NoMarker) && budget == 0
    {
      queue, marker, budget := [], NoMarker, 0;
    }

    method SaveItems(items: seq<Item>) returns (ok: bool)
      modifies `queue, `budget
      ensures ok <==> old(budget) > 0
      ensures queue == (if ok then items else old(queue)) && budget == old(budget) - if ok then 1 else 0
    {
      if budget == 0 { return false; }
      queue, budget := items, budget - 1;
      return true;
    }

    method SetMarker(m: Marker) returns (ok: bool)
      modifies `marker, `budget
      ensures ok <==> old(budget) > 0
      ensures marker == (if ok then m else old(marker)) && budget == old(budget) - if ok then 1 else 0
    {
      if budget == 0 { return false; }
      marker, budget := m, budget - 1;
      return true;
    }

    static method QueueContainsItem(items: seq<Item>, want: Item) returns (found: bool)
      ensures found == Contains(items, want)
    {
      var wantKey := DedupeKey(want);
      for i := 0 to |items|
        invariant !Contains(items[..i], want)
      {
        var it := items[i];
        assert items[..i + 1] == items[..i] + [it];
        if wantKey != "" && DedupeKey(it) == wantKey {
          assert Same(items[i], want);
          return true;
        }
        if it.jobID == want.jobID && it.slotKey == want.slotKey && it.enqueuedAt == want.enqueuedAt {
          assert Same(items[i], want);
          return true;
        }
      }
      assert items[..|items|] == items;
      return false;
    }

    /** Before a claim: an item left in flight goes back to the front, unless it is queued. */
    method ReconcileOrphanInflight(lockHeld: bool) returns (proceed: bool)
      modifies this
      ensures OnDisk() == After(old(OnDisk()),
                                if old(marker).Marked? && lockHeld then [] else OrphanWrites(old(OnDisk())),
                                old(budget))
      ensures proceed <==>
        || old(marker).NoMarker?
        || (old(marker).Marked? && !lockHeld && |OrphanWrites(old(OnDisk()))| <= old(budget))
      ensures proceed ==> budget == old(budget) - |OrphanWrites(old(OnDisk()))|
    {
      hide Contains, Same;
      if marker.NoMarker? { return true; }
      if marker.Corrupt? {
        var _ := SetMarker(NoMarker);
        return false;
      }
      if lockHeld { return false; }
      var queued := QueueContainsItem(queue, marker.item);
      if !queued {
        var ok := SaveItems([marker.item] + queue);
        if !ok { return false; }
      }
      proceed := SetMarker(NoMarker);
    }

    /** Marks the head in flight, then removes it from the queue. */
    method ClaimNext(lockHeld: bool) returns (r: Claim)
      modifies this
      ensures OnDisk() == After(old(OnDisk()), ClaimWrites(old(OnDisk()), lockHeld), old(budget))
      ensures r.Claimed? <==>
        && |ClaimWrites(old(OnDisk()), lockHeld)| <= old(budget)
        && !old(marker).Corrupt? && !(old(marker).Marked? && lockHeld)
        && Recovered(old(OnDisk())).queue != []
      ensures r.Claimed? ==> r.item == Recovered(old(OnDisk())).queue[0]
    {
      hide Contains;
      var proceed := ReconcileOrphanInflight(lockHeld);
      if !proceed { return Refused; }
      if |queue| == 0 { return Empty; }
      var item := queue[0];
      var ok := SetMarker(Marked(item));
      if !ok { return Stopped; }
      ok := SaveItems(queue[1..]);
      return if ok then Claimed(item) else Stopped;
    }

    /** After a start: an item left in flight is queued again, unless a backup is at work or was just now. */
    method ReconcileInflight(busy: bool) returns (ok: bool)
      modifies this
      ensures OnDisk() == After(old(OnDisk()), if busy then [] else OrphanWrites(old(OnDisk())), old(budget))
    {
      hide Contains, Same;
      if marker.NoMarker? || busy { return true; }
      if marker.Corrupt? {
        var _ := SetMarker(NoMarker);
        return false;
      }
      var item := marker.item;
      var alreadyQueued := QueueContainsItem(queue, item);
      if !alreadyQueued {
        ok := EnqueueFront(item);
        if !ok { return; }
      }
      ok := SetMarker(NoMarker);
    }

    /** At the tail, if there is room and the slot is not queued yet. */
    method Enqueue(item: Item) returns (ok: bool)
      modifies this
      ensures marker == old(marker)
      ensures ok <==>
        && |old(queue)| < MAX_QUEUE_ITEMS && old(budget) > 0
        && (DedupeKey(item) == "" || forall it <- old(queue) :: DedupeKey(it) != DedupeKey(item))
      ensures queue == if ok then old(queue) + [item] else old(queue)
    {
      if |queue| >= MAX_QUEUE_ITEMS { return false; }
      var key := DedupeKey(item);
      if key != "" {
        for i := 0 to |queue|
          modifies {}
          invariant forall it <- queue[..i] :: DedupeKey(it) != key
        {
          assert queue[..i + 1] == queue[..i] + [queue[i]];
          if DedupeKey(queue[i]) == key { return false; }
        }
        assert queue[..|queue|] == queue;
      }
      ok := SaveItems(queue + [item]);
    }

    /** At the head, with no check of any kind. */
    method EnqueueFront(item: Item) returns (ok: bool)
      modifies `queue, `budget
      ensures ok <==> old(budget) > 0
      ensures queue == (if ok then [item] + old(queue) else old(queue)) && budget == old(budget) - if ok then 1 else 0
    {
      ok := SaveItems([item] + queue);
    }
  }

  // Crashes.

  /** A reconcile cut short anywhere and run again does what one run would have done. */
  lemma ReconcileAgain(d: Disk, k: nat)
    ensures Recovered(After(d, OrphanWrites(d), k)) == Recovered(d)
    ensures Recovered(d).marker == NoMarker
  {
    if d.marker.Marked? && !Contains(d.queue, d.marker.item) && k == 1 {
      var q := [d.marker.item] + d.queue;
      assert d.marker.item in q && Same(d.marker.item, d.marker.item);
    }
  }

  /**
   A claim cut short anywhere, or whose backup never started, is undone by the next reconcile:
   the queue is again what it was, in the same order, unless the claim was complete and an item
   that counts as the same is queued behind the one it took.
   */
  lemma CrashedClaimRecovers(d: Disk, k: nat)
    requires !d.marker.Corrupt?
    ensures var whole := ClaimWrites(d, false); var q := Recovered(d).queue;
      Recovered(After(d, whole, k)) == Recovered(d)
      <==> !(q != [] && k >= |whole| && Contains(q[1..], q[0]))
  {
    hide Contains;
    var o, q := OrphanWrites(d), Recovered(d).queue;
    var whole := ClaimWrites(d, false);
    ReconcileAgain(d, k);
    if q != [] && k > |o| {
      HeadIsQueued(q);
      if k >= |whole| {
        var x := q[0];
        assert After(d, whole, k) == Disk(q[1..], Marked(x));
        assert [x] + q[1..] == q;
        if Contains(q[1..], x) {
          assert |Recovered(Disk(q[1..], Marked(x))).queue| < |q|;
        }
      } else {
        assert After(d, whole, k) == Disk(q, Marked(q[0]));
      }
    } else if k > 0 && o != [] {
      assert whole[(if k < |o| then k else |o|) - 1] == o[(if k < |o| then k else |o|) - 1];
    }
  }

  lemma HeadIsQueued(q: seq<Item>)
    requires q != []
    ensures Contains(q, q[0])
  {
    assert q[0] in q && Same(q[0], q[0]);
  }
}
