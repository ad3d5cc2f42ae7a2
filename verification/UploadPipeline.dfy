/**
 The uploads of one chunk stream run beside the thread that cuts it. Every atomic step of the
 main thread and of each worker is one event here; a run is any interleaving of them.
 */
module UploadPipeline {
  import opened ChunkLayout

  /** What a worker does next; `Exiting` gives back its slot, `Exited` signs off. */
  datatype Phase = CheckContext | CheckError | CheckContextAgain | Send | Exiting | Exited

  datatype Worker = Worker(digest: Digest, phase: Phase)

  datatype Main = Working | Acquiring(digest: Digest, len: nat) | Waiting | Assigning | Closed | Stopped

  datatype State = State(
    capacity: nat, slots: nat, live: seq<Worker>, err: bool, cancelled: bool, bound: bool,
    main: Main, known: set<Digest>, assignments: seq<Digest>, bytesNew: nat, bytesReused: nat, pos: nat,
    knownAtStart: set<Digest>, replayed: set<Digest>, uploaded: set<Digest>)

  datatype Event =
    | Cancel
    /** A chunk cut from the data, or one taken over from the cache. */
    | Commit(digest: Digest, len: nat, replay: bool)
    | NoticeCancel
    | Acquire
    | Eof
    | WaitOver
    | CloseIndex(ok: bool)
    /** The next step of a worker; `ok` is the server's answer if it sends. */
    | Work(worker: nat, ok: bool)

  function Start(workers: int, known: set<Digest>): State {
    State(if workers < 1 then 1 else workers, 0, [], false, false, false, Working, known, [], 0, 0, 0, known, {}, {})
  }

  function Assign(s: State, digest: Digest, len: nat): State {
    s.(known := s.known + {digest}, assignments := s.assignments + [digest], pos := s.pos + len)
  }

  function StepCommit(s: State, digest: Digest, len: nat, replay: bool): State {
    if replay || digest in s.known then
      Assign(s, digest, len).(bytesReused := s.bytesReused + len,
                              replayed := if replay then s.replayed + {digest} else s.replayed)
    else if s.cancelled || s.err then s.(main := Stopped, bound := true)
    else s.(main := Acquiring(digest, len), bound := true)
  }

  function StepAcquire(s: State): State
    requires s.main.Acquiring?
  {
    if s.slots >= s.capacity then s else
      Assign(s, s.main.digest, s.main.len).(
        slots := s.slots + 1, live := s.live + [Worker(s.main.digest, CheckContext)],
        bytesNew := s.bytesNew + s.main.len, main := Working)
  }

  function StepWork(s: State, i: nat, ok: bool): State
    requires i < |s.live|
  {
    var w := s.live[i];
    var to := (phase: Phase) => s.(live := s.live[i := w.(phase := phase)]);
    match w.phase
    case CheckContext => if s.cancelled then to(Exiting).(err := true) else to(CheckError)
    case CheckError => if s.err then to(Exiting) else to(CheckContextAgain)
    case CheckContextAgain => if s.cancelled then to(Exiting).(err := true) else to(Send)
    case Send => if ok then to(Exiting).(uploaded := s.uploaded + {w.digest}) else to(Exiting).(err := true)
    case Exiting => to(Exited).(slots := if s.slots > 0 then s.slots - 1 else 0)
    case Exited => s.(live := s.live[..i] + s.live[i + 1..])
  }

  /** One event; an event that cannot happen now leaves everything as it is. */
  function Step(s: State, e: Event): State {
    match e
    case Cancel => s.(cancelled := true)
    case Commit(digest, len, replay) => if s.main == Working then StepCommit(s, digest, len, replay) else s
    case NoticeCancel =>
      if s.cancelled && (s.main == Working || s.main.Acquiring?) then s.(main := Stopped) else s
    case Acquire => if s.main.Acquiring? then StepAcquire(s) else s
    case Eof => if s.main == Working then s.(main := if s.bound then Waiting else Assigning) else s
    case WaitOver =>
      if s.main == Waiting && s.live == [] then s.(main := if s.cancelled || s.err then Stopped else Assigning) else s
    case CloseIndex(ok) => if s.main == Assigning then s.(main := if ok then Closed else Stopped) else s
    case Work(i, ok) => if i < |s.live| then StepWork(s, i, ok) else s
  }

  function Run(s: State, events: seq<Event>): State
    decreases |events|
  {
    if events == [] then s else Run(Step(s, events[0]), events[1..])
  }

  // What every step keeps.

  function Holding(live: seq<Worker>): nat {
    if live == [] then 0 else (if live[0].phase == Exited then 0 else 1) + Holding(live[1..])
  }

  /** Workers whose chunk has neither arrived nor been given up. */
  predicate Pending(live: seq<Worker>, d: Digest) {
    exists w <- live :: w.digest == d && w.phase != Exiting && w.phase != Exited
  }

  /** The digest may stand in the index: it is on the server, or on its way there. */
  predicate Accounted(s: State, d: Digest) {
    s.err || d in s.knownAtStart || d in s.replayed || d in s.uploaded || Pending(s.live, d)
  }

  ghost predicate Inv(s: State) {
    && s.slots == Holding(s.live) <= s.capacity && s.capacity >= 1
    && s.bytesNew + s.bytesReused == s.pos
    && (forall d <- s.assignments :: d in s.known)
    && (forall d <- s.known :: Accounted(s, d))
    && (s.main.Acquiring? ==> s.bound)
    && (!s.bound ==> s.live == [] && !s.err)
    && (s.main == Assigning || s.main == Closed ==> s.live == [] && !s.err)
  }

  lemma {:induction false} HoldingUpdate(live: seq<Worker>, i: nat, w: Worker)
    requires i < |live|
    ensures Holding(live[i := w]) == Holding(live) - (if live[i].phase == Exited then 0 else 1)
                                   + (if w.phase == Exited then 0 else 1)
    ensures live[i].phase != Exited ==> Holding(live) > 0
    decreases |live|
  {
    if i > 0 {
      assert live[i := w][1..] == live[1..][i - 1 := w];
      HoldingUpdate(live[1..], i - 1, w);
    } else {
      assert live[0 := w][1..] == live[1..];
    }
  }

  lemma {:induction false} HoldingRemove(live: seq<Worker>, i: nat)
    requires i < |live| && live[i].phase == Exited
    ensures Holding(live[..i] + live[i + 1..]) == Holding(live)
    decreases |live|
  {
    if i > 0 {
      assert (live[..i] + live[i + 1..])[1..] == live[1..][..i - 1] + live[1..][i..];
      HoldingRemove(live[1..], i - 1);
    } else {
      assert live[..0] + live[1..] == live[1..];
    }
  }

  lemma {:induction false} HoldingAdd(live: seq<Worker>, w: Worker)
    ensures Holding(live + [w]) == Holding(live) + if w.phase == Exited then 0 else 1
  {
    if live != [] {
      assert (live + [w])[1..] == live[1..] + [w];
      HoldingAdd(live[1..], w);
    } else {
      assert live + [w] == [w] && [w][1..] == [];
    }
  }

  lemma PendingAfterRemove(live: seq<Worker>, i: nat, d: Digest)
    requires i < |live| && live[i].phase == Exited && Pending(live, d)
    ensures Pending(live[..i] + live[i + 1..], d)
  {
    var j :| 0 <= j < |live| && live[j].digest == d && live[j].phase != Exiting && live[j].phase != Exited;
    assert (live[..i] + live[i + 1..])[if j < i then j else j - 1] == live[j];
  }

  lemma PendingAfterUpdate(live: seq<Worker>, i: nat, w: Worker, d: Digest)
    requires i < |live| && Pending(live, d) && w.digest == live[i].digest
    requires live[i].digest == d ==> w.phase != Exiting && w.phase != Exited
    ensures Pending(live[i := w], d)
  {
    var j :| 0 <= j < |live| && live[j].digest == d && live[j].phase != Exiting && live[j].phase != Exited;
    assert live[i := w][j] == if j == i then w else live[j];
  }

  lemma FinishedIsNotPending(live: seq<Worker>, i: nat, w: Worker, d: Digest)
    requires i < |live| && (live[i].phase == Exiting || live[i].phase == Exited) && Pending(live, d)
    ensures Pending(live[i := w], d)
  {
    var j :| 0 <= j < |live| && live[j].digest == d && live[j].phase != Exiting && live[j].phase != Exited;
    assert live[i := w][j] == live[j];
  }

  /** A worker's step loses no digest: the chunk arrives, stays pending, or the error is set. */
  lemma WorkKeepsAccounts(s: State, i: nat, ok: bool, d: Digest)
    requires i < |s.live| && Accounted(s, d)
    ensures Accounted(StepWork(s, i, ok), d)
  {
    hide Pending;
    var t := StepWork(s, i, ok);
    if !t.err && d !in t.uploaded && Pending(s.live, d) {
      match s.live[i].phase {
        case Exited => PendingAfterRemove(s.live, i, d);
        case Exiting => FinishedIsNotPending(s.live, i, t.live[i], d);
        case _ => PendingAfterUpdate(s.live, i, t.live[i], d);
      }
    }
  }

  lemma WorkKeepsInv(s: State, i: nat, ok: bool)
    requires Inv(s) && i < |s.live|
    ensures Inv(StepWork(s, i, ok))
  {
    hide Holding, Accounted;
    var t := StepWork(s, i, ok);
    if s.live[i].phase == Exited {
      HoldingRemove(s.live, i);
    } else {
      HoldingUpdate(s.live, i, t.live[i]);
    }
    forall d <- t.known
      ensures Accounted(t, d)
    {
      WorkKeepsAccounts(s, i, ok, d);
    }
  }

  lemma StepKeepsInv(s: State, e: Event)
    requires Inv(s)
    ensures Inv(Step(s, e))
  {
    hide Holding, StepWork, Pending;
    if e.Work? {
      if e.worker < |s.live| { WorkKeepsInv(s, e.worker, e.ok); }
    } else if e == Acquire && s.main.Acquiring? && s.slots < s.capacity {
      HoldingAdd(s.live, Worker(s.main.digest, CheckContext));
      var t := StepAcquire(s);
      assert t.live[|s.live|].digest == s.main.digest;
      forall d
        ensures Pending(s.live, d) ==> Pending(t.live, d)
        ensures Pending(t.live, s.main.digest)
      {
        PendingGrows(s.live, Worker(s.main.digest, CheckContext), d);
      }
    }
  }

  lemma PendingGrows(live: seq<Worker>, w: Worker, d: Digest)
    requires w.phase == CheckContext
    ensures Pending(live, d) ==> Pending(live + [w], d)
    ensures Pending(live + [w], w.digest)
  {
    assert w in live + [w];
    if Pending(live, d) {
      var v :| v in live && v.digest == d && v.phase != Exiting && v.phase != Exited;
      assert v in live + [w];
    }
  }

  /**
   In every interleaving the index is closed only if each digest in it was uploaded without error in
   this run, was known at the start, or came from the cache; uploads never exceed the workers
   allowed; and the counters add up.
   */
  lemma {:induction false} EveryRunKeepsInv(s: State, events: seq<Event>)
    requires Inv(s)
    ensures Inv(Run(s, events))
    decreases |events|
  {
    hide Inv, Step;
    if events != [] {
      StepKeepsInv(s, events[0]);
      EveryRunKeepsInv(Step(s, events[0]), events[1..]);
    }
  }

  function Sending(live: seq<Worker>): nat {
    if live == [] then 0 else (if live[0].phase == Send then 1 else 0) + Sending(live[1..])
  }

  lemma {:induction false} SendersHold(live: seq<Worker>)
    ensures Sending(live) <= Holding(live)
  {
    if live != [] {
      SendersHold(live[1..]);
    }
  }

  lemma NoIndexOverFailedUpload(workers: int, known: set<Digest>, events: seq<Event>)
    ensures var s := Run(Start(workers, known), events);
      && (s.main == Closed ==> forall d <- s.assignments :: d in s.uploaded || d in known || d in s.replayed)
      && Sending(s.live) <= (if workers < 1 then 1 else workers)
      && s.bytesNew + s.bytesReused == s.pos
  {
    hide Run, Step, Holding, Sending, Pending;
    var s := Run(Start(workers, known), events);
    assert Holding([]) == 0 by { NobodyHolds(); }
    EveryRunKeepsInv(Start(workers, known), events);
    StaysPut(Start(workers, known), events);
    SendersHold(s.live);
    if s.main == Closed { NonePending(); }
  }

  lemma NobodyHolds()
    ensures Holding([]) == 0
  {
  }

  lemma NonePending()
    ensures forall d :: !Pending([], d)
  {
  }

  lemma {:induction false} StaysPut(s: State, events: seq<Event>)
    ensures Run(s, events).capacity == s.capacity && Run(s, events).knownAtStart == s.knownAtStart
    decreases |events|
  {
    hide Step;
    if events != [] {
      StepStaysPut(s, events[0]);
      StaysPut(Step(s, events[0]), events[1..]);
    }
  }

  lemma StepStaysPut(s: State, e: Event)
    ensures Step(s, e).capacity == s.capacity && Step(s, e).knownAtStart == s.knownAtStart
  {
    hide StepWork;
    if e.Work? {
      if e.worker < |s.live| { WorkStaysPut(s, e.worker, e.ok); }
    }
  }

  lemma WorkStaysPut(s: State, i: nat, ok: bool)
    requires i < |s.live|
    ensures StepWork(s, i, ok).capacity == s.capacity && StepWork(s, i, ok).knownAtStart == s.knownAtStart
  {
  }

  // The wait comes to an end.

  function Rank(p: Phase): nat {
    match p
    case CheckContext => 6
    case CheckError => 5
    case CheckContextAgain => 4
    case Send => 3
    case Exiting => 2
    case Exited => 1
  }

  function LeftToDo(live: seq<Worker>): nat {
    if live == [] then 0 else Rank(live[0].phase) + LeftToDo(live[1..])
  }

  /** Any step of any worker, whatever the server answers, brings the end of the wait closer. */
  lemma {:induction false} WorkIsProgress(s: State, i: nat, ok: bool)
    requires i < |s.live|
    ensures LeftToDo(StepWork(s, i, ok).live) < LeftToDo(s.live)
    ensures LeftToDo(s.live) == 0 <==> s.live == []
  {
    hide LeftToDo;
    var t := StepWork(s, i, ok);
    NothingLeft(s.live);
    if s.live[i].phase == Exited {
      LeftAfterRemove(s.live, i);
    } else {
      LeftAfterUpdate(s.live, i, t.live[i]);
    }
  }

  lemma NothingLeft(live: seq<Worker>)
    ensures LeftToDo(live) == 0 <==> live == []
  {
  }

  lemma {:induction false} LeftAfterUpdate(live: seq<Worker>, i: nat, w: Worker)
    requires i < |live|
    ensures LeftToDo(live[i := w]) == LeftToDo(live) - Rank(live[i].phase) + Rank(w.phase)
    decreases |live|
  {
    if i > 0 {
      assert live[i := w][1..] == live[1..][i - 1 := w];
      LeftAfterUpdate(live[1..], i - 1, w);
    } else {
      assert live[0 := w][1..] == live[1..];
    }
  }

  lemma {:induction false} LeftAfterRemove(live: seq<Worker>, i: nat)
    requires i < |live|
    ensures LeftToDo(live[..i] + live[i + 1..]) == LeftToDo(live) - Rank(live[i].phase)
    decreases |live|
  {
    if i > 0 {
      assert (live[..i] + live[i + 1..])[1..] == live[1..][..i - 1] + live[1..][i..];
      LeftAfterRemove(live[1..], i - 1);
    } else {
      assert live[..0] + live[1..] == live[1..];
    }
  }
}
