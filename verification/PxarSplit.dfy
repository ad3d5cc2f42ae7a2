/**
 Cutting the stream does not matter, for arbitrary bytes: what a feed leaves behind
 is a sufficient summary of what was fed, unless it ended right after a file's entry.
 */
module PxarSplit {
  import opened Bytes
  import opened PxarFormat
  import opened Paths
  import opened PxarStreamSpec

  lemma U64Append(a: bytes, b: bytes, pos: nat)
    requires pos + 8 <= |a|
    ensures U64(a + b, pos) == U64(a, pos)
  {
    assert (a + b)[pos..pos + 8] == a[pos..pos + 8];
  }

  /** A payload that reaches beyond the carry. */
  predicate MidPayload(p: Parser) {
    p.core.walk != InDir && p.core.walk != RootEntry && p.core.payload.remain > |p.carry|
  }

  lemma EnterChildAppend(p: Parser, name: bytes, mode: nat, b: bytes)
    requires EnterChild(p, name, mode).Moved?
    ensures EnterChild(Append(p, b), name, mode) == Moved(Append(EnterChild(p, name, mode).p, b))
  {
    hide TargetPathKeys, CurrentPath, InSkip, DirRelevant, LookupTarget, IsDirMode, OpenPayload, FromLE;
    if !IsDirMode(mode) {
      U64Append(p.carry, b, 0);
      U64Append(p.carry, b, 8);
      assert (p.carry + b)[16..] == p.carry[16..] + b;
    }
  }

  lemma StepFilenameAppend(p: Parser, b: bytes)
    requires StepFilename(p).Moved?
    ensures StepFilename(Append(p, b)) == Moved(Append(StepFilename(p).p, b))
  {
    hide EnterChild, FromLE;
    var nameLen := AsInt(U64(p.carry, 8));
    U64Append(p.carry, b, 8);
    U64Append(p.carry, b, nameLen);
    U64Append(p.carry, b, nameLen + 8);
    U64Append(p.carry, b, nameLen + 16);
    var total := WrapInt(nameLen + AsInt(U64(p.carry, nameLen + 8)));
    assert (p.carry + b)[total..] == p.carry[total..] + b;
    assert (p.carry + b)[16..nameLen - 1] == p.carry[16..nameLen - 1];
    EnterChildAppend(Consume(p, total), p.carry[16..nameLen - 1], U64(p.carry, nameLen + 16), b);
  }

  /** More bytes at the end do not change a step that could be taken without them. */
  lemma StepAppend(p: Parser, b: bytes)
    requires Step(p).Moved? && !MidPayload(p)
    ensures Step(Append(p, b)) == Moved(Append(Step(p).p, b))
  {
    hide EnterChild, StepFilename, StepPayload, FromLE;
    match p.core.walk
    case RootEntry =>
      U64Append(p.carry, b, 0);
      U64Append(p.carry, b, 8);
      U64Append(p.carry, b, 16);
      var n := AsInt(U64(p.carry, 8));
      assert (p.carry + b)[n..] == p.carry[n..] + b;
    case InDir =>
      U64Append(p.carry, b, 0);
      if U64(p.carry, 0) == GOODBYE {
        U64Append(p.carry, b, 8);
        var n := AsInt(U64(p.carry, 8));
        assert (p.carry + b)[n..] == p.carry[n..] + b;
      } else {
        StepFilenameAppend(p, b);
      }
    case _ =>
      StepPayloadAppend(p, b);
  }

  lemma StepPayloadAppend(p: Parser, b: bytes)
    requires p.core.payload.remain <= |p.carry|
    ensures StepPayload(Append(p, b)) == Moved(Append(StepPayload(p).p, b))
  {
    hide EndPayload, TakePayload;
    var n := p.core.payload.remain;
    assert (p.carry + b)[..n] == p.carry[..n] && (p.carry + b)[n..] == p.carry[n..] + b;
  }

  lemma TakePayloadTwice(c: Core, a: bytes, b: bytes)
    requires |a| + |b| <= c.payload.remain
    ensures TakePayload(TakePayload(c, a), b) == TakePayload(c, a + b)
  {
    var out := c.payload.out;
    assert (out + a) + b == out + (a + b);
  }

  lemma PayloadStepSplit(c: Core, a: bytes, b: bytes)
    requires |a| < c.payload.remain && b != []
    ensures StepPayload(Parser(TakePayload(c, a), b)) == StepPayload(Parser(c, a + b))
  {
    hide EndPayload;
    var c' := TakePayload(c, a);
    var r := c'.payload.remain;
    var n := if r > |b| then |b| else r;
    TakePayloadTwice(c, a, b[..n]);
    assert a + b[..n] == (a + b)[..|a| + n] && b[n..] == (a + b)[|a| + n..];
    assert StepPayload(Parser(c', b)).p.carry == StepPayload(Parser(c, a + b)).p.carry;
  }

  /** Where a payload is only partly there, taking it in two goes or in one comes to the same. */
  lemma PartialPayload(p: Parser, b: bytes)
    requires MidPayload(p) && p.carry != [] && b != []
    ensures Step(p) == Moved(Parser(TakePayload(p.core, p.carry), []))
    ensures Step(Append(Step(p).p, b)) == Step(Append(p, b))
  {
    hide EndPayload;
    var a := p.carry;
    assert a[..|a|] == a && a[|a|..] == [];
    var q := Step(p).p;
    assert q == Parser(TakePayload(p.core, a), []);
    assert Append(q, b) == Parser(q.core, b) by { assert [] + b == b; }
    PayloadStepSplit(p.core, a, b);
  }

  lemma WaitKeeps(p: Parser)
    requires Step(p).Wait?
    ensures Step(p).p == p
  {
    hide OpenPayload, FromLE;
  }

  /**
   The split theorem: feeding `b` to what a feed of `p` left behind gives exactly
   what feeding it along with `p`'s own bytes gives.
   */
  lemma {:induction false} DrainSplit(p: Parser, b: bytes)
    requires Drain(p).Quiet? && !AllDone(p.core)
    ensures Feed(Drain(p).p, b) == Feed(p, b)
    decreases |p.carry|, Rank(p.core.walk)
  {
    hide Step;
    if Step(p).Wait? {
      WaitKeeps(p);
    } else {
      DrainOnward(p, b);
      DrainSplit(Step(p).p, b);
    }
  }

  /** The same for a feed that ended the restore: the surplus stays in the carry. */
  lemma {:induction false} DrainSplitDone(p: Parser, b: bytes)
    requires Drain(p).Done? && !AllDone(p.core)
    ensures Feed(p, b) == Done(Append(Drain(p).p, b))
    decreases |p.carry|, Rank(p.core.walk)
  {
    hide Step;
    var q := Step(p).p;
    if AllDone(q.core) {
      if MidPayload(p) {
        assert p.carry != [] by { EmptyMidPayload(p); }
        PartialPayload(p, [0]);
        assert false;
      }
      StepAppend(p, b);
    } else {
      DrainOnward(p, b);
      DrainSplitDone(q, b);
    }
  }

  lemma EmptyMidPayload(p: Parser)
    requires MidPayload(p) && Step(p).Moved?
    ensures p.carry != []
  {
  }

  lemma DrainOnward(p: Parser, b: bytes)
    requires Step(p).Moved? && Progress(p, Step(p).p) && !AllDone(p.core) && !AllDone(Step(p).p.core)
    ensures Feed(Step(p).p, b) == Feed(p, b)
  {
    hide Step;
    var q := Step(p).p;
    if !MidPayload(p) {
      StepAppend(p, b);
    } else if b == [] {
      assert Append(p, b) == p && Append(q, b) == q;
    } else {
      EmptyMidPayload(p);
      PartialPayload(p, b);
      MidPayloadProgress(Append(p, b));
      MidPayloadProgress(Append(q, b));
    }
  }

  lemma MidPayloadProgress(p: Parser)
    requires p.core.walk != InDir && p.core.walk != RootEntry && p.core.payload.remain > 0 && p.carry != []
    ensures Step(p).Moved? && Progress(p, Step(p).p)
  {
    hide EndPayload;
  }

  /** Block lengths that cancel out: the two inputs on which the loop makes no progress. */
  predicate ZeroLengthBlock(p: Parser) {
    p.core.walk == InDir && |p.carry| >= 16 &&
    if U64(p.carry, 0) == GOODBYE then U64(p.carry, 8) == 0
    else
      var nameLen := AsInt(U64(p.carry, 8));
      U64(p.carry, 0) == FILENAME && 17 <= nameLen && nameLen + 16 <= |p.carry| &&
      WrapInt(nameLen + AsInt(U64(p.carry, nameLen + 8))) == 0
  }

  /** A step that moves makes progress except on a block whose length comes to nothing. */
  lemma ProgressExceptOnZeroLength(p: Parser)
    requires Step(p).Moved?
    ensures Progress(p, Step(p).p) <==> !ZeroLengthBlock(p)
  {
    hide FromLE, OpenPayload, CurrentPath, InSkip, DirRelevant, LookupTarget, IsDirMode, TargetPathKeys;
    assert p.carry[0..] == p.carry;
  }

  /** And from there every further step finds the same bytes again: the loop never ends. */
  lemma ZeroLengthRepeats(p: Parser)
    requires ZeroLengthBlock(p) && Step(p).Moved?
    ensures ZeroLengthBlock(Step(p).p) && Step(p).p.carry == p.carry && Step(Step(p).p).Moved?
  {
    hide FromLE, OpenPayload, CurrentPath, InSkip, DirRelevant, LookupTarget, IsDirMode, TargetPathKeys;
    assert p.carry[0..] == p.carry;
  }
}
