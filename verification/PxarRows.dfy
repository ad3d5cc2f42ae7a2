/** Rows of tokens fed in arbitrary pieces. */
module PxarRows {
  import opened Bytes
  import opened PxarFormat
  import opened Paths
  import opened PxarStreamSpec
  import opened PxarSplit
  import opened PxarTokens

  function Row(toks: seq<Token>): bytes {
    if toks == [] then [] else TokenBytes(toks[0]) + Row(toks[1..])
  }

  function ApplyAll(c: Core, toks: seq<Token>): Core
    decreases |toks|
  {
    if toks == [] then c else ApplyAll(Apply(c, toks[0]), toks[1..])
  }

  predicate Readable(w: Walk, toks: seq<Token>)
    decreases |toks|
  {
    toks == [] ||
    (GoodToken(toks[0]) && w == (if toks[0].Root? then RootEntry else InDir) && Readable(InDir, toks[1..]))
  }

  /** Position `k` of the row lies between a file's entry and the end of its payload header. */
  predicate InWindow(toks: seq<Token>, k: nat) {
    toks != [] &&
    if k < |TokenBytes(toks[0])| then InHeaderWindow(toks[0], k)
    else InWindow(toks[1..], k - |TokenBytes(toks[0])|)
  }

  lemma {:induction false} ApplyAllAppend(c: Core, a: seq<Token>, b: seq<Token>)
    ensures ApplyAll(c, a + b) == ApplyAll(ApplyAll(c, a), b)
    decreases |a|
  {
    hide Apply;
    if a == [] {
      assert a + b == b;
    } else {
      assert (a + b)[0] == a[0] && (a + b)[1..] == a[1..] + b;
      ApplyAllAppend(Apply(c, a[0]), a[1..], b);
    }
  }

  lemma {:induction false} RowAppend(a: seq<Token>, b: seq<Token>)
    ensures Row(a + b) == Row(a) + Row(b)
  {
    hide TokenBytes, Row;
    if a == [] {
      assert a + b == b;
      EmptyRow();
      assert [] + Row(b) == Row(b);
    } else {
      RowAppend(a[1..], b);
      RowOne(a[0], a[1..] + b);
      RowOne(a[0], a[1..]);
      assert a + b == [a[0]] + (a[1..] + b) && a == [a[0]] + a[1..];
      Associative(TokenBytes(a[0]), Row(a[1..]), Row(b));
    }
  }

  lemma EmptyRow()
    ensures Row([]) == []
  {
  }

  lemma RowOne(t: Token, rest: seq<Token>)
    ensures Row([t] + rest) == TokenBytes(t) + Row(rest)
  {
    assert ([t] + rest)[1..] == rest;
  }

  lemma {:induction false} InWindowAppend(a: seq<Token>, b: seq<Token>, k: nat)
    ensures InWindow(a + b, k) <==> if k < |Row(a)| then InWindow(a, k) else InWindow(b, k - |Row(a)|)
  {
    hide TokenBytes, InHeaderWindow;
    if a == [] {
      assert a + b == b;
    } else {
      assert (a + b)[0] == a[0] && (a + b)[1..] == a[1..] + b;
      if k >= |TokenBytes(a[0])| {
        InWindowAppend(a[1..], b, k - |TokenBytes(a[0])|);
      }
    }
  }

  lemma ApplyKeeps(c: Core, t: Token)
    ensures Apply(c, t).walk == InDir && Apply(c, t).indexMode == c.indexMode
    ensures Apply(c, t).recordIndex == c.recordIndex
    ensures Apply(c, t).streamOff == c.streamOff + |TokenBytes(t)|
  {
    hide Head, Block, CurrentPath, InSkip, DirRelevant, LookupTarget, TargetPathKeys, FinishEntry,
         MarkDone, RecordPayload;
    if t.Leaf? {
      LeafBytes(t, []);
      assert TokenBytes(t) + [] == TokenBytes(t);
    }
  }

  /** All targets were restored after some whole number of tokens. */
  predicate FinishedEarly(c: Core, toks: seq<Token>, q: Core) {
    AllDone(q) && exists j :: 0 <= j <= |toks| && q == ApplyAll(c, toks[..j])
  }

  /** All targets are restored by the tokens that end at position `k` or before. */
  predicate Served(c: Core, toks: seq<Token>, k: nat)
    decreases |toks|
  {
    toks != [] && |TokenBytes(toks[0])| <= k
    && (AllDone(Apply(c, toks[0])) || Served(Apply(c, toks[0]), toks[1..], k - |TokenBytes(toks[0])|))
  }

  lemma {:induction false} ServedStays(c: Core, toks: seq<Token>, k: nat, later: nat)
    requires Served(c, toks, k) && k <= later
    ensures Served(c, toks, later)
    decreases |toks|
  {
    hide Apply, TokenBytes, AllDone;
    if !AllDone(Apply(c, toks[0])) {
      ServedStays(Apply(c, toks[0]), toks[1..], k - |TokenBytes(toks[0])|, later - |TokenBytes(toks[0])|);
    }
  }

  /** The carry of a torn parser and what is still to come make up a PAYLOAD header. */
  predicate TornBefore(q: Parser, rest: bytes) {
    q.core.walk == InDir && |q.carry| < 16 <= |q.carry + rest| && At(q.carry + rest, 0, LE64(PAYLOAD))
  }

  lemma {:induction false} DrainRow(c: Core, toks: seq<Token>, k: nat)
    requires Readable(c.walk, toks) && !AllDone(c) && (c.walk == RootEntry || c.walk == InDir)
    requires k <= |Row(toks)| <= MAX_INT
    ensures var r := Drain(Parser(c, Row(toks)[..k]));
      match r
      case Quiet(q) =>
        !Served(c, toks, k) && !InWindow(toks, k) && (k == |Row(toks)| ==> q == Parser(ApplyAll(c, toks), []))
      case QuietTorn(q) => !Served(c, toks, k) && InWindow(toks, k) && TornBefore(q, Row(toks)[k..])
      case Done(q) => Served(c, toks, k) && FinishedEarly(c, toks, q.core)
      case _ => false
    decreases |toks|
  {
    hide Step, Apply, TokenBytes, InHeaderWindow, LE64, GoodToken;
    if toks == [] {
      NothingToDo(c);
      assert Row(toks)[..k] == [];
    } else {
      var t, rest := toks[0], toks[1..];
      var b := TokenBytes(t);
      if k < |b| {
        assert Row(toks)[..k] == b[..k];
        DrainPart(c, t, k);
        if InHeaderWindow(t, k) {
          TornToken(t, k, Row(rest), Drain(Parser(c, b[..k])).p);
          assert Row(toks)[k..] == (b + Row(rest))[k..];
        }
      } else {
        assert Row(toks)[..k] == b + Row(rest)[..k - |b|];
        DrainToken(c, t, Row(rest)[..k - |b|]);
        var c' := Apply(c, t);
        ApplyKeeps(c, t);
        if AllDone(c') {
          assert toks[..1][1..] == [] && toks[..1][0] == t;
          assert ApplyAll(c, toks[..1]) == c' by { assert ApplyAll(c', []) == c'; }
        } else {
          DrainRow(c', rest, k - |b|);
          var r := Drain(Parser(c', Row(rest)[..k - |b|]));
          if r.Done? {
            var j :| 0 <= j <= |rest| && r.p.core == ApplyAll(c', rest[..j]);
            assert toks[..j + 1][0] == t && toks[..j + 1][1..] == rest[..j];
          }
          assert Row(toks)[k..] == Row(rest)[k - |b|..];
        }
      }
    }
  }

  lemma NothingToDo(c: Core)
    requires c.walk == RootEntry || c.walk == InDir
    ensures Drain(Parser(c, [])) == Quiet(Parser(c, []))
  {
  }

  lemma TornToken(t: Token, k: nat, rest: bytes, q: Parser)
    requires InHeaderWindow(t, k) && q.core.walk == InDir
    requires q.carry == BlockHeader(PAYLOAD, |t.data|)[..k - |Head(t.name, t.mode, t.extra)|]
    ensures TornBefore(q, (TokenBytes(t) + rest)[k..])
  {
    hide ToLE, Head;
    var head, header := Head(t.name, t.mode, t.extra), BlockHeader(PAYLOAD, |t.data|);
    LeafBytes(t, rest);
    var s := header + (t.data + rest);
    assert (TokenBytes(t) + rest)[k..] == s[k - |head|..];
    assert q.carry == s[..k - |head|];
    assert q.carry + s[k - |head|..] == s;
    assert s[0..8] == LE64(PAYLOAD);
  }

  /** Once torn, the first feed that brings the tag together finds it where it does not belong. */
  lemma {:induction false} TornThenFails(q: Parser, pieces: seq<bytes>)
    requires TornBefore(q, Flatten(pieces))
    ensures FeedAll(q, pieces) == Failed(UnexpectedDirBlock)
    decreases |pieces|
  {
    hide ToLE, FromLE, StepFilename, StepGoodbye;
    var q' := Append(q, pieces[0]);
    var all := q.carry + Flatten(pieces);
    assert all == q'.carry + Flatten(pieces[1..]);
    if |q'.carry| >= 8 {
      AtU64(all, 0, PAYLOAD);
      U64Append(q'.carry, Flatten(pieces[1..]), 0);
    } else {
      TornThenFails(q', pieces[1..]);
    }
  }

  lemma PrefixOfFlatten(pieces: seq<bytes>, i: nat)
    requires i <= |pieces|
    ensures Flatten(pieces) == Flatten(pieces[..i]) + Flatten(pieces[i..])
    ensures i < |pieces| ==> Flatten(pieces[..i + 1]) == Flatten(pieces[..i]) + pieces[i]
  {
    hide Flatten;
    assert pieces == pieces[..i] + pieces[i..];
    FlattenAppend(pieces[..i], pieces[i..]);
    if i < |pieces| {
      assert pieces[..i + 1] == pieces[..i] + [pieces[i]];
      FlattenOne(pieces[..i], pieces[i]);
    }
  }

  /** No piece ends in a header window while some target still waits. */
  predicate CutsClean(c: Core, toks: seq<Token>, pieces: seq<bytes>, from: nat) {
    forall j :: from < j <= |pieces| ==>
      !InWindow(toks, |Flatten(pieces[..j])|) || Served(c, toks, |Flatten(pieces[..j])|)
  }

  /** From the state after the first `i` pieces on, every cut is judged by its position alone. */
  lemma {:induction false} FeedFrom(c: Core, toks: seq<Token>, pieces: seq<bytes>, i: nat, p: Parser)
    requires Readable(c.walk, toks) && !AllDone(c) && (c.walk == RootEntry || c.walk == InDir)
    requires Flatten(pieces) == Row(toks) && |Row(toks)| <= MAX_INT
    requires i <= |pieces| && Drain(Parser(c, Flatten(pieces[..i]))) == Quiet(p)
    ensures var r := FeedAll(p, pieces[i..]);
      if !CutsClean(c, toks, pieces, i) then r == Failed(UnexpectedDirBlock)
      else if Served(c, toks, |Row(toks)|) then r.Done? && FinishedEarly(c, toks, r.p.core)
      else r == Quiet(Parser(ApplyAll(c, toks), []))
    decreases |pieces| - i
  {
    hide Step, Drain, Flatten, Row, InWindow, ApplyAll, Readable, FinishedEarly, Served;
    PrefixOfFlatten(pieces, i);
    var S := Row(toks);
    if i == |pieces| {
      assert pieces[..i] == pieces && pieces[i..] == [] && S[..|S|] == S;
      DrainRow(c, toks, |S|);
    } else {
      PrefixOfFlatten(pieces, i + 1);
      var fed := Flatten(pieces[..i]);
      var k := |Flatten(pieces[..i + 1])|;
      assert S[..k] == fed + pieces[i] && S[k..] == Flatten(pieces[i + 1..]);
      assert pieces[i..][0] == pieces[i] && pieces[i..][1..] == pieces[i + 1..];
      DrainSplit(Parser(c, fed), pieces[i]);
      DrainRow(c, toks, k);
      var r := Drain(Parser(c, S[..k]));
      assert Feed(p, pieces[i]) == r;
      match r
      case Quiet(q) => FeedFrom(c, toks, pieces, i + 1, q);
      case QuietTorn(q) =>
        TornThenFails(q, pieces[i + 1..]);
        assert InWindow(toks, |Flatten(pieces[..i + 1])|);
      case Done(q) =>
        forall j | i < j <= |pieces|
          ensures Served(c, toks, |Flatten(pieces[..j])|)
        {
          assert pieces[..i + 1] == pieces[..j][..i + 1];
          PrefixOfFlatten(pieces[..j], i + 1);
          ServedStays(c, toks, k, |Flatten(pieces[..j])|);
        }
        ServedStays(c, toks, k, |S|);
    }
  }
}
