/**
 Verdicts over time (src/finality/mod.rs, is_final): for one block with a fixed justification and voter set
 the true verdicts form one interval, which a rising best height closes for good.
 */
module Window {
  import opened Common
  import opened Chain
  import opened Finality

  ghost predicate BestRises(hs: History) {
    forall i, j :: 0 <= i && j == i + 1 && j < |hs| ==> hs[i].bestNumber <= hs[j].bestNumber
  }

  function JustificationOf(w: World, h: Hash): Option<Bytes> {
    if h in w.justifications then Some(w.justifications[h]) else None
  }

  /** The inputs of the participation check for one block never change. */
  ghost predicate FixedVote(hs: History, h: Hash) {
    forall i :: 0 <= i < |hs| ==> hs[i].voters == hs[0].voters && JustificationOf(hs[i], h) == JustificationOf(hs[0], h)
  }

  predicate NoFault(hs: History, r: CallReads)
    requires CallInRange(r, |hs|)
  {
    && !hs[r.hash].headerFault && !hs[r.first.header].headerFault && !hs[r.second.header].headerFault
    && !hs[r.first.justification].justificationFault && !hs[r.second.justification].justificationFault
  }

  /** A call made entirely between two true verdicts of the same block. */
  ghost predicate Between(env: Env, p: Params, c: Config, hs: History, ref: BlockRef, r1: CallReads, r2: CallReads,
                          r3: CallReads) {
    && IsHistory(env.ledger, hs) && BestRises(hs) && FixedVote(hs, ref.hash)
    && CallInRange(r1, |hs|) && CallInRange(r2, |hs|) && CallInRange(r3, |hs|)
    && CallInOrder(r1) && CallInOrder(r2) && CallInOrder(r3)
    && r1.best <= r2.hash && r2.best <= r3.hash
    && c.minConfirmations >= 1
    && IsFinal(env, p, c, hs, ref, r1) == Ok(true)
    && IsFinal(env, p, c, hs, ref, r3) == Ok(true)
  }

  lemma {:induction false} BestLater(hs: History, i: nat, j: nat)
    requires BestRises(hs) && i <= j < |hs|
    ensures hs[i].bestNumber <= hs[j].bestNumber
  {
    if i < j {
      BestLater(hs, i, j - 1);
    }
  }

  /** The participation check sees the same status at every call. */
  lemma SameParticipation(env: Env, hs: History, h: Hash, r: StatusReads, r': StatusReads)
    requires FixedVote(hs, h) && InRange(r, |hs|) && InRange(r', |hs|)
    requires GetFinalityStatus(env, hs, h, r).Ok? && GetFinalityStatus(env, hs, h, r').Ok?
    ensures var s, s' := GetFinalityStatus(env, hs, h, r).value, GetFinalityStatus(env, hs, h, r').value;
            s.hasJustification == s'.hasJustification && s.participationRate == s'.participationRate
  {
    assert JustificationOf(hs[r.justification], h) == JustificationOf(hs[r'.justification], h);
  }

  /** A false verdict on a height the first read saw finalized failed one of the chain rules. */
  lemma FalseVerdictChecks(env: Env, p: Params, c: Config, hs: History, ref: BlockRef, r: CallReads)
    requires IsLedger(env.ledger) && CallInRange(r, |hs|) && IsFinal(env, p, c, hs, ref, r) == Ok(false)
    requires c.confidenceThreshold <= 1.0
    ensures ref.hash in env.ledger.headers
    ensures env.ledger.headers[ref.hash].number <= hs[r.first.info].finalizedNumber ==>
              && GetFinalityStatus(env, hs, ref.hash, r.second).Ok?
              && !PassesRules(c, env.ledger.headers[ref.hash].number, hs[r.second.info].finalizedNumber,
                              hs[r.best].bestNumber, GetFinalityStatus(env, hs, ref.hash, r.second).value)
  {
    ConfidenceGap(env, p, hs, ref.hash, r.first);
  }

  /** Between two true verdicts no call answers false: a verdict that falls never comes back. */
  lemma VerdictNeverReturns(env: Env, p: Params, c: Config, hs: History, ref: BlockRef, r1: CallReads, r2: CallReads,
                            r3: CallReads)
    requires Between(env, p, c, hs, ref, r1, r2, r3)
    ensures IsFinal(env, p, c, hs, ref, r2) != Ok(false)
  {
    TrueVerdictChecks(env, p, c, hs, ref, r1);
    TrueVerdictChecks(env, p, c, hs, ref, r3);
    Later(env.ledger, hs, r1.second.info, r2.first.info);
    Later(env.ledger, hs, r1.second.info, r2.second.info);
    BestLater(hs, r2.best, r3.best);
    if IsFinal(env, p, c, hs, ref, r2) == Ok(false) {
      FalseVerdictChecks(env, p, c, hs, ref, r2);
      SameParticipation(env, hs, ref.hash, r1.second, r2.second);
      assert false;
    }
  }

  /** A call fails only on a client fault, a missing header or a wrong number. */
  lemma AnswersWhenHeld(env: Env, p: Params, c: Config, hs: History, ref: BlockRef, r: CallReads)
    requires CallInRange(r, |hs|) && NoFault(hs, r) && ref.hash in env.ledger.headers
    requires ref.hash in hs[r.hash].held && ref.hash in hs[r.first.header].held && ref.hash in hs[r.second.header].held
    requires env.ledger.headers[ref.hash].number == Saturated(env.ledger.maxNumber, ref.number)
    ensures IsFinal(env, p, c, hs, ref, r).Ok?
  {
  }

  lemma AnswersOnceCanonical(env: Env, p: Params, c: Config, hs: History, ref: BlockRef, i: nat, r: CallReads)
    requires IsHistory(env.ledger, hs) && CallInRange(r, |hs|) && CallInOrder(r) && i <= r.hash && NoFault(hs, r)
    requires ref.hash in hs[i].held && env.ledger.headers[ref.hash].number == ref.number <= hs[i].finalizedNumber
    ensures IsFinal(env, p, c, hs, ref, r).Ok?
  {
    CanonicalForever(env.ledger, hs, ref.hash, i, r.hash);
    CanonicalForever(env.ledger, hs, ref.hash, i, r.first.header);
    CanonicalForever(env.ledger, hs, ref.hash, i, r.second.header);
    AnswersWhenHeld(env, p, c, hs, ref, r);
  }

  /** Above the gap the header of a block judged final is held when the call returns. */
  lemma HeldOnReturn(env: Env, p: Params, c: Config, hs: History, ref: BlockRef, r: CallReads)
    requires IsHistory(env.ledger, hs) && CallInRange(r, |hs|) && CallInOrder(r)
    requires c.confidenceThreshold > 0.6 && IsFinal(env, p, c, hs, ref, r) == Ok(true)
    ensures ref.hash in hs[r.best].held
  {
    HighThresholdMeansFinalized(env, p, c, hs, ref, r);
    Later(env.ledger, hs, r.first.info, r.second.header);
    CanonicalForever(env.ledger, hs, ref.hash, r.second.header, r.best);
  }

  lemma AnswersAfterTrue(env: Env, p: Params, c: Config, hs: History, ref: BlockRef, r1: CallReads, r2: CallReads)
    requires IsHistory(env.ledger, hs) && c.minConfirmations >= 1
    requires CallInRange(r1, |hs|) && CallInOrder(r1) && IsFinal(env, p, c, hs, ref, r1) == Ok(true)
    requires CallInRange(r2, |hs|) && CallInOrder(r2) && r1.best <= r2.hash && NoFault(hs, r2)
    requires c.confidenceThreshold > 0.6 || ref.hash in hs[r1.best].held
    ensures IsFinal(env, p, c, hs, ref, r2).Ok?
  {
    VerdictSound(env, p, c, hs, ref, r1, r1.best);
    if c.confidenceThreshold > 0.6 {
      HeldOnReturn(env, p, c, hs, ref, r1);
    }
    AnswersOnceCanonical(env, p, c, hs, ref, r1.best, r2);
  }

  /**
   Between two true verdicts every call whose client reads succeed answers true: the moments at which the
   block counts as final form one interval.  Its header stays held because it is canonical throughout.
   */
  lemma VerdictInterval(env: Env, p: Params, c: Config, hs: History, ref: BlockRef, r1: CallReads, r2: CallReads,
                        r3: CallReads)
    requires Between(env, p, c, hs, ref, r1, r2, r3) && NoFault(hs, r2)
    requires c.confidenceThreshold > 0.6 || ref.hash in hs[r1.best].held
    ensures IsFinal(env, p, c, hs, ref, r2) == Ok(true)
  {
    AnswersAfterTrue(env, p, c, hs, ref, r1, r2);
    VerdictNeverReturns(env, p, c, hs, ref, r1, r2, r3);
    var verdict := IsFinal(env, p, c, hs, ref, r2);
    assert verdict.Ok? && verdict.value;
  }

  /** The client forgets no header of its own finalized chain, however it came to be finalized. */
  ghost predicate HoldsFinalizedChain(l: Ledger, hs: History) {
    forall i, h :: 0 <= i < |hs| && Descends(l, h, hs[i].finalizedHash) ==> h in hs[i].held
  }

  /** A header held later, at a height finalized by now, is on the finalized chain now. */
  lemma CanonicalAlready(l: Ledger, hs: History, h: Hash, i: nat, j: nat)
    requires IsHistory(l, hs) && i <= j < |hs|
    requires h in hs[j].held && l.headers[h].number <= hs[i].finalizedNumber
    ensures Descends(l, h, hs[i].finalizedHash)
  {
    Later(l, hs, i, j);
    var head := hs[i].finalizedHash;
    assert IsWorld(l, hs[i]) && IsWorld(l, hs[j]);
    AncestorsAreOneChain(l, h, head, hs[j].finalizedHash);
    if Descends(l, head, h) {
      DescendsNumber(l, head, h);
    }
  }

  lemma AnswersBefore(env: Env, p: Params, c: Config, hs: History, ref: BlockRef, r: CallReads, j: nat)
    requires IsHistory(env.ledger, hs) && HoldsFinalizedChain(env.ledger, hs)
    requires CallInRange(r, |hs|) && CallInOrder(r) && r.best <= j < |hs| && NoFault(hs, r)
    requires ref.hash in hs[j].held && env.ledger.headers[ref.hash].number == ref.number <= hs[r.hash].finalizedNumber
    ensures IsFinal(env, p, c, hs, ref, r).Ok?
  {
    Later(env.ledger, hs, r.hash, r.first.header);
    Later(env.ledger, hs, r.hash, r.second.header);
    CanonicalAlready(env.ledger, hs, ref.hash, r.hash, j);
    CanonicalAlready(env.ledger, hs, ref.hash, r.first.header, j);
    CanonicalAlready(env.ledger, hs, ref.hash, r.second.header, j);
    AnswersWhenHeld(env, p, c, hs, ref, r);
  }

  lemma HeldAtLastRead(env: Env, p: Params, c: Config, hs: History, ref: BlockRef, r: CallReads)
    requires CallInRange(r, |hs|) && IsFinal(env, p, c, hs, ref, r) == Ok(true)
    ensures ref.hash in hs[r.second.header].held
  {
  }

  /** On a client that keeps its finalized chain the interval needs no side condition, at any threshold. */
  lemma VerdictIntervalOnFullChain(env: Env, p: Params, c: Config, hs: History, ref: BlockRef, r1: CallReads,
                                   r2: CallReads, r3: CallReads)
    requires Between(env, p, c, hs, ref, r1, r2, r3) && NoFault(hs, r2) && HoldsFinalizedChain(env.ledger, hs)
    ensures IsFinal(env, p, c, hs, ref, r2) == Ok(true)
  {
    VerdictSound(env, p, c, hs, ref, r1, r2.hash);
    HeldAtLastRead(env, p, c, hs, ref, r3);
    AnswersBefore(env, p, c, hs, ref, r2, r3.second.header);
    VerdictNeverReturns(env, p, c, hs, ref, r1, r2, r3);
    var verdict := IsFinal(env, p, c, hs, ref, r2);
    assert verdict.Ok? && verdict.value;
  }

  /** Once the best block is more than 50 above the block, no call that starts later succeeds. */
  lemma WindowCloses(env: Env, p: Params, c: Config, hs: History, ref: BlockRef, i: nat, r: CallReads)
    requires IsHistory(env.ledger, hs) && BestRises(hs) && CallInRange(r, |hs|) && i <= r.best
    requires ref.hash in env.ledger.headers && hs[i].bestNumber > env.ledger.headers[ref.hash].number + 50
    ensures IsFinal(env, p, c, hs, ref, r) != Ok(true)
  {
    BestLater(hs, i, r.best);
    if IsFinal(env, p, c, hs, ref, r) == Ok(true) {
      TrueVerdictChecks(env, p, c, hs, ref, r);
    }
  }
}
