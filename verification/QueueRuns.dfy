/** The queue over any number of claims, finished backups, crashes and recoveries. */
module QueueRuns {
  import opened Options
  import opened BackupQueue

  /** An item without the flag that only says it came from the queue. */
  function Plain(it: Item): Item {
    it.(fromQueue := false)
  }

  function PlainAll(items: seq<Item>): (r: seq<Item>)
    ensures |r| == |items| && forall i | 0 <= i < |items| :: r[i] == Plain(items[i])
  {
    seq(|items|, i requires 0 <= i < |items| => Plain(items[i]))
  }

  /** No two of these count as the same item. */
  ghost predicate Distinct(items: seq<Item>) {
    && (forall i | 0 <= i < |items| :: items[i] == Plain(items[i]))
    && forall i, j | 0 <= i < j < |items| :: !Same(items[i], items[j])
  }

  /**
   Of the items accepted so far, in order, the queue is exactly those from the `next` on; those before are
   finished, except that the last of them may be in flight. A marker names that one or the head.
   */
  ghost predicate InOrder(accepted: seq<Item>, next: nat, d: Disk, finished: set<Item>) {
    && Distinct(accepted) && next <= |accepted| && PlainAll(d.queue) == accepted[next..]
    && !d.marker.Corrupt?
    && (d.marker.Marked? ==> InFlightAt(accepted, next, Plain(d.marker.item)))
    && forall i | 0 <= i < next ::
         accepted[i] in finished || (d.marker.Marked? && Plain(d.marker.item) == accepted[i])
  }

  predicate InFlightAt(accepted: seq<Item>, next: nat, x: Item)
    requires next <= |accepted|
  {
    (next > 0 && x == accepted[next - 1]) || (next < |accepted| && x == accepted[next])
  }

  lemma SamePlain(a: Item, b: Item)
    ensures Same(Plain(a), b) == Same(a, b) == Same(a, Plain(b))
  {
  }

  /** An item in flight is queued as well just when it is the head. */
  lemma QueuedIffHead(accepted: seq<Item>, next: nat, d: Disk, finished: set<Item>)
    requires InOrder(accepted, next, d, finished) && d.marker.Marked?
    ensures Contains(d.queue, d.marker.item) <==> next < |accepted| && Plain(d.marker.item) == accepted[next]
  {
    hide Same;
    var x := d.marker.item;
    if next < |accepted| && Plain(x) == accepted[next] {
      SameIsEquivalence(x, x, x);
      SamePlain(x, x);
      SamePlain(d.queue[0], Plain(x));
      assert PlainAll(d.queue)[0] == accepted[next];
      SamePlain(d.queue[0], x);
      assert d.queue[0] in d.queue;
    } else {
      forall it <- d.queue
        ensures !Same(it, x)
      {
        var j :| 0 <= j < |d.queue| && d.queue[j] == it;
        assert PlainAll(d.queue)[j] == accepted[next + j];
        SamePlain(it, x);
        SamePlain(Plain(it), x);
        SameIsEquivalence(Plain(it), Plain(x), Plain(it));
      }
    }
  }

  /** Where the queue starts after `k` of the writes that put an orphan back. */
  function NextAfterOrphan(next: nat, d: Disk, k: nat): nat {
    if k > 0 && d.marker.Marked? && !Contains(d.queue, d.marker.item) && next > 0 then next - 1 else next
  }

  /** The marker of a queued item can go. */
  lemma Unmark(accepted: seq<Item>, next: nat, q: seq<Item>, x: Item, finished: set<Item>)
    requires InOrder(accepted, next, Disk(q, Marked(x)), finished) && next < |accepted| && Plain(x) == accepted[next]
    ensures InOrder(accepted, next, Disk(q, NoMarker), finished)
  {
    hide Same, PlainAll;
    NotBoth(accepted, next);
  }

  /** An item that is only in flight can be queued again. */
  lemma PutBack(accepted: seq<Item>, next: nat, q: seq<Item>, x: Item, finished: set<Item>, again: Item)
    requires InOrder(accepted, next, Disk(q, Marked(x)), finished) && next > 0 && Plain(x) == accepted[next - 1]
    requires Plain(again) == Plain(x)
    ensures InOrder(accepted, next - 1, Disk([again] + q, Marked(x)), finished) && next <= |accepted|
  {
    hide Same;
    assert PlainAll([again] + q) == [Plain(x)] + PlainAll(q);
    assert [accepted[next - 1]] + accepted[next..] == accepted[next - 1..];
  }

  lemma OrphanKeepsOrder(accepted: seq<Item>, next: nat, d: Disk, finished: set<Item>, k: nat)
    requires InOrder(accepted, next, d, finished)
    ensures InOrder(accepted, NextAfterOrphan(next, d, k), After(d, OrphanWrites(d), k), finished)
  {
    hide Same, Contains, InOrder, PlainAll;
    NotCorrupt(accepted, next, d, finished);
    if d.marker.Marked? && k > 0 {
      QueuedIffHead(accepted, next, d, finished);
      InFlight(accepted, next, d, finished);
      var x := d.marker.item;
      if Contains(d.queue, x) {
        Unmark(accepted, next, d.queue, x, finished);
      } else {
        PutBack(accepted, next, d.queue, x, finished, x);
        Unmark(accepted, next - 1, [x] + d.queue, x, finished);
      }
    }
  }

  lemma InFlight(accepted: seq<Item>, next: nat, d: Disk, finished: set<Item>)
    requires InOrder(accepted, next, d, finished) && d.marker.Marked?
    ensures next <= |accepted| && InFlightAt(accepted, next, Plain(d.marker.item))
  {
  }

  lemma NotBoth(accepted: seq<Item>, j: nat)
    requires Distinct(accepted) && j < |accepted|
    ensures forall i | 0 <= i < j :: accepted[i] != accepted[j]
  {
    SameIsEquivalence(accepted[j], accepted[j], accepted[j]);
  }

  function NextAfterClaim(next: nat, d: Disk, k: nat): nat {
    NextAfterOrphan(next, d, k) + if k >= |ClaimWrites(d, false)| > |OrphanWrites(d)| then 1 else 0
  }

  lemma ClaimKeepsOrder(accepted: seq<Item>, next: nat, d: Disk, finished: set<Item>, k: nat)
    requires InOrder(accepted, next, d, finished)
    ensures InOrder(accepted, NextAfterClaim(next, d, k), After(d, ClaimWrites(d, false), k), finished)
    ensures k >= |ClaimWrites(d, false)| > |OrphanWrites(d)| ==> var x := Recovered(d).queue[0];
      && After(d, ClaimWrites(d, false), k).marker == Marked(x)
      && 0 < NextAfterClaim(next, d, k) <= |accepted| && Plain(x) == accepted[NextAfterClaim(next, d, k) - 1]
  {
    hide Same, Contains, InOrder;
    var o, whole, q := OrphanWrites(d), ClaimWrites(d, false), Recovered(d).queue;
    OrphanKeepsOrder(accepted, next, d, finished, k);
    OrphanKeepsOrder(accepted, next, d, finished, |o|);
    ReconcileAgain(d, |o|);
    NotCorrupt(accepted, next, d, finished);
    if q != [] && k > |o| {
      TakeHead(accepted, NextAfterOrphan(next, d, |o|), q, finished);
      NextOnce(next, d, k);
      if k >= |whole| {
        assert After(d, whole, k) == Disk(q[1..], Marked(q[0]));
      } else {
        assert After(d, whole, k) == Disk(q, Marked(q[0]));
      }
    } else if k > 0 && o != [] {
      assert whole[(if k < |o| then k else |o|) - 1] == o[(if k < |o| then k else |o|) - 1];
    }
  }

  lemma NotCorrupt(accepted: seq<Item>, next: nat, d: Disk, finished: set<Item>)
    requires InOrder(accepted, next, d, finished)
    ensures !d.marker.Corrupt?
  {
  }

  lemma NextOnce(next: nat, d: Disk, k: nat)
    requires k > |OrphanWrites(d)|
    ensures NextAfterOrphan(next, d, k) == NextAfterOrphan(next, d, |OrphanWrites(d)|)
  {
    hide Same, Contains;
  }

  lemma TakeHead(accepted: seq<Item>, next: nat, q: seq<Item>, finished: set<Item>)
    requires InOrder(accepted, next, Disk(q, NoMarker), finished) && q != []
    ensures InOrder(accepted, next, Disk(q, Marked(q[0])), finished)
    ensures InOrder(accepted, next + 1, Disk(q[1..], Marked(q[0])), finished)
    ensures next < |accepted| && Plain(q[0]) == accepted[next]
  {
    hide Same;
    assert PlainAll(q)[0] == accepted[next];
    assert PlainAll(q[1..]) == PlainAll(q)[1..];
  }

  // All runs.

  lemma MoreAccepted(accepted: seq<Item>, next: nat, d: Disk, finished: set<Item>, item: Item)
    requires InOrder(accepted, next, d, finished) && item == Plain(item) && forall a <- accepted :: !Same(a, item)
    ensures InOrder(accepted + [item], next, Disk(d.queue + [item], d.marker), finished) && next <= |accepted|
  {
    hide Same;
    assert PlainAll(d.queue + [item]) == PlainAll(d.queue) + [item];
    assert (accepted + [item])[next..] == accepted[next..] + [item];
  }

  lemma DoneAndUnmarked(accepted: seq<Item>, next: nat, q: seq<Item>, x: Item, finished: set<Item>)
    requires InOrder(accepted, next, Disk(q, Marked(x)), finished) && next > 0 && Plain(x) == accepted[next - 1]
    ensures InOrder(accepted, next, Disk(q, Marked(x)), finished + {Plain(x)})
    ensures InOrder(accepted, next, Disk(q, NoMarker), finished + {Plain(x)})
  {
    hide Same, PlainAll;
  }

  /** All but the items before `next`, in order, and those are finished. */
  ghost predicate AllQueued(accepted: seq<Item>, next: nat, d: Disk, finished: set<Item>) {
    && d.marker == NoMarker && next <= |accepted| && PlainAll(d.queue) == accepted[next..]
    && forall i | 0 <= i < next :: accepted[i] in finished
  }

  /** The queue files with whoever works on them. Taking a claimed item on includes taking the backup lock. */
  class Machine {
    const files: QueueFiles
    var running: Option<Item>
    ghost var accepted: seq<Item>
    ghost var next: nat
    ghost var finished: set<Item>
    /** Items given up on and recorded as such, and items that were neither kept nor recorded. */
    ghost var dead: set<Item>
    ghost var lost: set<Item>

    ghost function Settled(): set<Item>
      reads this
    {
      finished + dead + lost
    }

    ghost predicate Valid()
      reads this, files
    {
      && InOrder(accepted, next, files.OnDisk(), Settled())
      && (running.Some? ==> files.marker == Marked(running.value))
      && (running.Some? ==> next > 0 && Plain(running.value) == accepted[next - 1])
    }

    constructor ()
      ensures Valid() && accepted == [] && running.None? && Settled() == {} && fresh(files)
    {
      files := new QueueFiles();
      running, accepted, next, finished, dead, lost := None, [], 0, {}, {}, {};
    }

    /** An item not seen before is accepted, or the queue stays as it is. */
    method Enqueue(item: Item, budget: nat) returns (ok: bool)
      requires Valid() && item == Plain(item) && forall a <- accepted :: !Same(a, item)
      modifies this`accepted, files
      ensures Valid() && accepted == if ok then old(accepted) + [item] else old(accepted)
    {
      hide Same, InOrder;
      files.budget := budget;
      ok := files.Enqueue(item);
      if ok {
        MoreAccepted(accepted, next, Disk(old(files.queue), files.marker), Settled(), item);
        accepted := accepted + [item];
      }
    }

    /** Idle, the next item is claimed and started, or the claim is refused, or it dies on the way. */
    method Drain(lockHeld: bool, budget: nat)
      requires Valid() && running.None?
      modifies this`running, this`next, files
      ensures Valid()
      ensures running.Some? ==> forall i | 0 <= i < next - 1 :: accepted[i] in Settled()
      ensures lockHeld && old(files.marker).Marked? ==>
        running.None? && next == old(next) && files.OnDisk() == old(files.OnDisk())
    {
      hide Same, InOrder, Contains;
      files.budget := budget;
      ghost var d := files.OnDisk();
      ClaimKeepsOrder(accepted, next, d, Settled(), budget);
      var r := files.ClaimNext(lockHeld);
      if !(lockHeld && d.marker.Marked?) { next := NextAfterClaim(next, d, budget); }
      if r.Claimed? {
        running := Some(r.item);
        ClaimedIsNext(accepted, next, files.OnDisk(), Settled(), r.item);
      }
    }

    /** The process dies; the lock it held goes stale. */
    method Crash()
      requires Valid()
      modifies this`running
      ensures Valid() && running.None?
    {
      running := None;
    }

    /** At start-up; given time and an idle machine it leaves the queue whole again. */
    method Reconcile(recent: bool, budget: nat)
      requires Valid()
      modifies this`next, files
      ensures Valid()
      ensures running.None? && !recent && budget >= 2 ==> AllQueued(accepted, next, files.OnDisk(), Settled())
    {
      hide Same, InOrder, Contains;
      files.budget := budget;
      ghost var d := files.OnDisk();
      OrphanKeepsOrder(accepted, next, d, Settled(), budget);
      NotCorrupt(accepted, next, d, Settled());
      var busy := running.Some? || recent;
      var _ := files.ReconcileInflight(busy);
      if !busy {
        next := NextAfterOrphan(next, d, budget);
        if budget >= 2 { UnmarkedIsWhole(accepted, next, files.OnDisk(), Settled()); }
      }
    }

    /** The backup ended, well or not; then the marker is cleared. */
    method Finish(budget: nat)
      requires Valid() && running.Some?
      modifies this`running, this`finished, files
      ensures Valid() && running.None? && finished == old(finished) + {Plain(old(running).value)}
    {
      hide Same, InOrder;
      files.budget := budget;
      DoneAndUnmarked(accepted, next, files.queue, running.value, Settled());
      finished := finished + {Plain(running.value)};
      assert Settled() == old(Settled()) + {Plain(running.value)};
      var _ := files.SetMarker(NoMarker);
      running := None;
    }

    /**
     The start failed for good, or the item could not be put back: the marker is cleared, then the item is recorded.
     It is lost exactly if the process dies in between.
     */
    method GiveUp(clears: bool, records: bool)
      requires Valid() && running.Some?
      modifies this`running, this`dead, this`lost, files
      ensures Valid() && running.None?
      ensures dead == old(dead) + if records then {Plain(old(running).value)} else {}
      ensures lost == old(lost) + if clears && !records then {Plain(old(running).value)} else {}
      ensures clears ==> files.marker == NoMarker && !Contains(files.queue, old(running).value)
    {
      hide Same, InOrder, Contains;
      NotQueuedWhileRunning(accepted, next, files.OnDisk(), Settled());
      ghost var it := Plain(running.value);
      DoneAndUnmarked(accepted, next, files.queue, running.value, Settled());
      files.budget := if clears then 1 else 0;
      var _ := files.SetMarker(NoMarker);
      running := None;
      if records { dead := dead + {it}; } else if clears { lost := lost + {it}; }
      assert Settled() == old(Settled()) + if clears || records then {it} else {};
    }

    /**
     The backup met a held lock: here the marker is cleared first, then the item goes back to the head, or is recorded
     if it cannot. It is lost exactly if neither happens any more.
     */
    method GiveBack(clears: bool, puts: bool, records: bool)
      requires Valid() && running.Some? && (puts ==> !records)
      modifies this`running, this`next, this`dead, this`lost, files
      ensures Valid() && running.None?
      ensures dead == old(dead) + if records then {Plain(old(running).value)} else {}
      ensures lost == old(lost) + if clears && !puts && !records then {Plain(old(running).value)} else {}
      ensures puts ==> Settled() == old(Settled()) && next == old(next) - 1
      ensures clears && !puts ==> files.marker == NoMarker && !Contains(files.queue, old(running).value)
    {
      hide Same, InOrder, Contains;
      NotQueuedWhileRunning(accepted, next, files.OnDisk(), Settled());
      var item := running.value;
      var again := item.(fromQueue := true);
      ghost var it := Plain(item);
      DoneAndUnmarked(accepted, next, files.queue, item, Settled());
      PutBack(accepted, next, files.queue, item, Settled(), again);
      Unmark(accepted, next - 1, [again] + files.queue, item, Settled());
      files.budget := if clears then 1 else 0;
      var _ := files.SetMarker(NoMarker);
      files.budget := if puts then 1 else 0;
      var ok := files.EnqueueFront(again);
      running := None;
      if puts { next := next - 1; }
      if records { dead := dead + {it}; } else if clears && !puts { lost := lost + {it}; }
      assert Settled() == old(Settled()) + if records || (clears && !puts) then {it} else {};
    }

    /** The start failed for now: the item goes back to the head, flagged, and the marker is cleared. */
    method Requeue(budget: nat)
      requires Valid() && running.Some?
      modifies this`running, this`next, files
      ensures Valid() && running.None?
    {
      hide Same, InOrder;
      files.budget := budget;
      var item := running.value;
      var again := item.(fromQueue := true);
      PutBack(accepted, next, files.queue, item, Settled(), again);
      Unmark(accepted, next - 1, [again] + files.queue, item, Settled());
      running := None;
      var ok := files.EnqueueFront(again);
      if ok {
        next := next - 1;
        var _ := files.SetMarker(NoMarker);
      }
    }
  }

  /** The running item stands nowhere but in the marker. */
  lemma NotQueuedWhileRunning(accepted: seq<Item>, next: nat, d: Disk, finished: set<Item>)
    requires InOrder(accepted, next, d, finished) && d.marker.Marked?
    requires next > 0 && Plain(d.marker.item) == accepted[next - 1]
    ensures !Contains(d.queue, d.marker.item)
  {
    hide Same, Contains;
    QueuedIffHead(accepted, next, d, finished);
    if next < |accepted| { NotBoth(accepted, next); }
  }

  lemma UnmarkedIsWhole(accepted: seq<Item>, next: nat, d: Disk, finished: set<Item>)
    requires InOrder(accepted, next, d, finished) && d.marker == NoMarker
    ensures AllQueued(accepted, next, d, finished)
  {
  }

  /** The item whose claim went through is the first one not finished. */
  lemma ClaimedIsNext(accepted: seq<Item>, next: nat, d: Disk, finished: set<Item>, x: Item)
    requires InOrder(accepted, next, d, finished) && d.marker == Marked(x) && next > 0 && Plain(x) == accepted[next - 1]
    ensures forall i | 0 <= i < next - 1 :: accepted[i] in finished
  {
    hide Same;
    NotBoth(accepted, next - 1);
  }
}
