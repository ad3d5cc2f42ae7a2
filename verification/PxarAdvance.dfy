/** Skipping a payload unseen leaves the parser where feeding the payload would have. */
module PxarAdvance {
  import opened Bytes
  import opened PxarFormat
  import opened Paths
  import opened PxarStreamSpec
  import opened PxarSplit

  predicate Conserves(p: Parser, o: Outcome) {
    (o.Moved? || o.Wait? || o.Torn?) ==>
      o.p.core.streamOff + |o.p.carry| == p.core.streamOff + |p.carry| && o.p.core.indexMode == p.core.indexMode
  }

  lemma EnterConserves(p: Parser, name: bytes, mode: nat)
    ensures Conserves(p, EnterChild(p, name, mode))
  {
    hide FromLE, RecordPayload, CurrentPath, InSkip, DirRelevant, LookupTarget, IsDirMode, TargetPathKeys;
  }

  lemma FilenameConserves(p: Parser)
    ensures Conserves(p, StepFilename(p))
  {
    hide FromLE, EnterChild;
    if StepFilename(p).Moved? || StepFilename(p).Torn? || StepFilename(p).Wait? {
      if |p.carry| >= 16 {
        var nameLen := AsInt(U64(p.carry, 8));
        if 17 <= nameLen && nameLen + 16 <= |p.carry| {
          var total := WrapInt(nameLen + AsInt(U64(p.carry, nameLen + 8)));
          if 0 <= total <= |p.carry| && nameLen + 24 <= |p.carry| {
            EnterConserves(Consume(p, total), p.carry[16..nameLen - 1], U64(p.carry, nameLen + 16));
          }
        }
      }
    }
  }

  lemma EndPayloadConserves(c: Core)
    ensures EndPayload(c).streamOff == c.streamOff && EndPayload(c).indexMode == c.indexMode
  {
    hide FinishEntry, MarkDone;
  }

  lemma StepConserves(p: Parser)
    ensures Conserves(p, Step(p))
  {
    hide FromLE, StepFilename, StepPayload, StepRootEntry, StepGoodbye, Conserves;
    FilenameConserves(p);
    PayloadConserves(p);
    BlocksConserve(p);
    StaysPut(p);
  }

  lemma StaysPut(p: Parser)
    ensures Conserves(p, Wait(p)) && forall e :: Conserves(p, Fail(e))
  {
  }

  lemma BlocksConserve(p: Parser)
    ensures Conserves(p, StepRootEntry(p)) && Conserves(p, StepGoodbye(p))
  {
    hide FromLE;
  }

  lemma PayloadConserves(p: Parser)
    ensures Conserves(p, StepPayload(p))
  {
    hide EndPayload;
    EndPayloadConserves(p.core);
    var pl, n := p.core.payload, |p.carry|;
    if pl.remain > 0 && pl.remain <= n {
      EndPayloadConserves(TakePayload(p.core, p.carry[..pl.remain]));
    }
  }

  /** No byte is lost or counted twice: consumed and carried bytes add up. */
  lemma {:induction false} DrainConserves(p: Parser)
    requires Drain(p).Quiet?
    ensures Drain(p).p.core.streamOff + |Drain(p).p.carry| == p.core.streamOff + |p.carry|
    ensures Drain(p).p.core.indexMode == p.core.indexMode
    decreases |p.carry|, Rank(p.core.walk)
  {
    hide Step;
    StepConserves(p);
    if Step(p).Moved? {
      DrainConserves(Step(p).p);
    }
  }

  /** A feed at rest inside a payload has nothing left in the carry. */
  lemma {:induction false} QuietInPayload(p: Parser)
    requires Drain(p).Quiet? && Drain(p).p.core.walk == SkipPayload
    ensures Drain(p).p.carry == [] && Drain(p).p.core.payload.remain > 0
    decreases |p.carry|, Rank(p.core.walk)
  {
    hide Step;
    if Step(p).Moved? {
      QuietInPayload(Step(p).p);
    } else {
      WaitKeeps(p);
      WaitInPayload(p);
    }
  }

  lemma WaitInPayload(p: Parser)
    requires Step(p).Wait? && p.core.walk == SkipPayload
    ensures p.carry == [] && p.core.payload.remain > 0
  {
    hide EndPayload;
  }

  /** `advanceSkipPayload` is feeding any payload of the announced length. */
  lemma AdvanceIsFeeding(p: Parser, payload: bytes)
    requires p.core.walk == SkipPayload && p.carry == [] && p.core.indexMode
    requires |payload| == p.core.payload.remain > 0
    ensures Feed(p, payload) == Quiet(AdvanceSkipPayload(p))
  {
    hide FinishEntry, FromLE;
    assert [] + payload == payload;
    assert payload[..|payload|] == payload && payload[|payload|..] == [];
    assert Step(Parser(p.core, payload)) == Moved(AdvanceSkipPayload(p));
    var q := AdvanceSkipPayload(p);
    assert Step(q) == Wait(q);
    assert Drain(q) == Quiet(q);
    assert Append(p, payload) == Parser(p.core, payload);
    assert Progress(Parser(p.core, payload), q) && !AllDone(q.core);
  }
}
