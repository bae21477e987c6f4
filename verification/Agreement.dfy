/**
 Agreement between verdicts (src/finality/mod.rs, is_final): when do two blocks judged final lie on one chain,
 although each verdict combines several reads of an advancing client?
 */
module Agreement {
  import opened Common
  import opened Voters
  import opened Chain
  import opened Finality

  /** Two calls, made by the same predicate against one history. */
  datatype Scenario = Scenario(env: Env, hs: History, a: BlockRef, ra: CallReads, b: BlockRef, rb: CallReads)

  ghost predicate IsScenario(s: Scenario) {
    && IsHistory(s.env.ledger, s.hs)
    && CallInRange(s.ra, |s.hs|) && CallInOrder(s.ra)
    && CallInRange(s.rb, |s.hs|) && CallInOrder(s.rb)
  }

  predicate BothFinal(p: Params, c: Config, s: Scenario)
    requires CallInRange(s.ra, |s.hs|) && CallInRange(s.rb, |s.hs|)
  {
    && IsFinal(s.env, p, c, s.hs, s.a, s.ra) == Ok(true)
    && IsFinal(s.env, p, c, s.hs, s.b, s.rb) == Ok(true)
  }

  /** No history, however the reads interleave with it, yields true verdicts on conflicting blocks. */
  ghost predicate AlwaysAgrees(p: Params, c: Config) {
    forall s: Scenario :: IsScenario(s) && BothFinal(p, c, s) ==> OneChain(s.env.ledger, s.a.hash, s.b.hash)
  }

  // ----- Thresholds above the confidence gap

  /**
   If the first status read already saw the height finalized, the second header read can only have found a
   canonical header: the block is on the finalized chain from then on.
   */
  lemma FinalizedFirstIsCanonical(env: Env, p: Params, c: Config, hs: History, ref: BlockRef, r: CallReads, k: nat)
    requires IsHistory(env.ledger, hs) && CallInRange(r, |hs|) && CallInOrder(r)
    requires IsFinal(env, p, c, hs, ref, r) == Ok(true) && ref.hash in env.ledger.headers
    requires env.ledger.headers[ref.hash].number <= hs[r.first.info].finalizedNumber
    requires r.second.header <= k < |hs|
    ensures Descends(env.ledger, ref.hash, hs[k].finalizedHash)
  {
    Later(env.ledger, hs, r.first.info, r.second.header);
    CanonicalForever(env.ledger, hs, ref.hash, r.second.header, k);
  }

  /** Above 0.6 the first status read did see the height finalized. */
  lemma JudgedFinalIsCanonical(env: Env, p: Params, c: Config, hs: History, ref: BlockRef, r: CallReads, k: nat)
    requires IsHistory(env.ledger, hs) && CallInRange(r, |hs|) && CallInOrder(r)
    requires c.confidenceThreshold > 0.6 && IsFinal(env, p, c, hs, ref, r) == Ok(true)
    requires r.second.header <= k < |hs|
    ensures Descends(env.ledger, ref.hash, hs[k].finalizedHash)
  {
    HighThresholdMeansFinalized(env, p, c, hs, ref, r);
    FinalizedFirstIsCanonical(env, p, c, hs, ref, r, k);
  }

  lemma HighThresholdAgrees(p: Params, c: Config, s: Scenario)
    requires c.confidenceThreshold > 0.6 && IsScenario(s) && BothFinal(p, c, s)
    ensures OneChain(s.env.ledger, s.a.hash, s.b.hash)
  {
    var last := |s.hs| - 1;
    JudgedFinalIsCanonical(s.env, p, c, s.hs, s.a, s.ra, last);
    JudgedFinalIsCanonical(s.env, p, c, s.hs, s.b, s.rb, last);
    AncestorsAreOneChain(s.env.ledger, s.a.hash, s.b.hash, s.hs[last].finalizedHash);
  }

  // ----- Any threshold

  /** The check a caller can add below the gap: a block whose header is still held after the call is canonical. */
  lemma StillHeldIsCanonical(env: Env, p: Params, c: Config, hs: History, ref: BlockRef, r: CallReads, k: nat)
    requires IsHistory(env.ledger, hs) && CallInRange(r, |hs|) && CallInOrder(r)
    requires c.minConfirmations >= 1 && IsFinal(env, p, c, hs, ref, r) == Ok(true)
    requires r.second.info <= k < |hs| && ref.hash in hs[k].held
    ensures Descends(env.ledger, ref.hash, hs[k].finalizedHash)
  {
    VerdictSound(env, p, c, hs, ref, r, k);
  }

  /** A call during which the chain does not move agrees with every other such call, whatever the threshold. */
  lemma UninterruptedCallsAgree(env: Env, p: Params, c: Config, hs: History, a: BlockRef, i: nat, b: BlockRef, j: nat)
    requires IsHistory(env.ledger, hs) && i <= j < |hs| && c.minConfirmations >= 1
    requires IsFinal(env, p, c, hs, a, CallAt(i)) == Ok(true) && IsFinal(env, p, c, hs, b, CallAt(j)) == Ok(true)
    ensures OneChain(env.ledger, a.hash, b.hash)
  {
    StillHeldIsCanonical(env, p, c, hs, a, CallAt(i), i);
    StillHeldIsCanonical(env, p, c, hs, b, CallAt(j), j);
    VerdictSound(env, p, c, hs, a, CallAt(i), i);
    CanonicalForever(env.ledger, hs, a.hash, i, j);
    AncestorsAreOneChain(env.ledger, a.hash, b.hash, hs[j].finalizedHash);
  }

  // ----- The race below the gap

  function UpTo(n: nat): (hashes: set<Hash>)
    ensures forall h: Hash :: h in hashes <==> h <= n
  {
    if n == 0 then {0} else UpTo(n - 1) + {n}
  }

  /** A canonical chain 0..tip with one fork block at height 1, whose hash is tip + 1. */
  function RaceHeader(tip: nat, h: Hash): Header {
    if h == tip + 1 then Header(1, 0) else Header(h, if h == 0 then tip + 2 else h - 1)
  }

  function RaceLedger(tip: nat): Ledger {
    Ledger(map h <- UpTo(tip + 1) :: RaceHeader(tip, h), U32_MAX)
  }

  const RACE_PRECOMMIT := SignedPrecommit(Precommit(0, 0), [], 0)

  /** One authority, every signature valid, every justification its single precommit. */
  const RACE_PRIMITIVES := Primitives(_ => [], (_, _, _) => true, _ => Some(Justification(0, [RACE_PRECOMMIT])))

  /** Before: only height 0 is finalized and both blocks at height 1 are held.  After: the tip is finalized. */
  function RaceHistory(tip: nat, held: map<Hash, Bytes>): History {
    [ World({0, 1, tip + 1}, 0, 0, 1, held, OneVoter(), 0, false, false),
      World(UpTo(tip), tip, tip, tip, held, OneVoter(), 1, false, false) ]
  }

  /** A justification of the fork block alone, which the single voter signs. */
  function ForkJustification(tip: nat): map<Hash, Bytes> {
    map[tip + 1 := []]
  }

  /**
   Finality arrives between the second header read of a call on the fork block and its second look at the
   chain information.  The other call is on the canonical block and uninterrupted.
   */
  function RaceScenario(tip: nat, held: map<Hash, Bytes>): Scenario {
    Scenario(Env(RaceLedger(tip), RACE_PRIMITIVES), RaceHistory(tip, held),
             BlockRef(tip + 1, 1), CallReads(0, Moment(0), StatusReads(0, 1, 1, 1), 1),
             BlockRef(1, 1), CallAt(1))
  }

  lemma {:induction false} RaceWalk(tip: nat, h: Hash, steps: nat)
    requires steps <= h <= tip
    ensures Walk(RaceLedger(tip), h, steps) == Some(h - steps)
    decreases steps
  {
    var l := RaceLedger(tip);
    assert h in UpTo(tip + 1);
    assert h in l.headers && l.headers[h] == RaceHeader(tip, h);
    if steps > 0 {
      RaceWalk(tip, h - 1, steps - 1);
    }
  }

  lemma RaceIsLedger(tip: nat)
    requires 1 <= tip <= 51
    ensures IsLedger(RaceLedger(tip))
    ensures forall h: Hash :: h in RaceLedger(tip).headers <==> h <= tip + 1
    ensures forall h: Hash | h <= tip + 1 :: RaceLedger(tip).headers[h] == RaceHeader(tip, h)
  {
    var hashes := UpTo(tip + 1);
  }

  lemma RaceWorlds(tip: nat, held: map<Hash, Bytes>)
    requires 1 <= tip <= 51
    ensures IsWorld(RaceLedger(tip), RaceHistory(tip, held)[0]) && IsWorld(RaceLedger(tip), RaceHistory(tip, held)[1])
    ensures Descends(RaceLedger(tip), 0, tip)
  {
    RaceIsLedger(tip);
    var l := RaceLedger(tip);
    forall h: Hash | 0 <= h <= tip ensures Descends(l, h, tip) {
      RaceWalk(tip, tip, tip - h);
    }
    assert Walk(l, 0, 0) == Some(0);
  }

  lemma RaceIsHistory(tip: nat, held: map<Hash, Bytes>)
    requires 1 <= tip <= 51
    ensures IsHistory(RaceLedger(tip), RaceHistory(tip, held))
  {
    RaceIsLedger(tip);
    RaceWorlds(tip, held);
    var l, hs := RaceLedger(tip), RaceHistory(tip, held);
    forall h | h in hs[0].held && Descends(l, h, 0) ensures h in hs[1].held {
      DescendsNumber(l, h, 0);
    }
    assert Advances(l, hs[0], hs[1]);
  }

  /** The two blocks at height 1 conflict. */
  lemma RaceConflict(tip: nat, held: map<Hash, Bytes>)
    requires 1 <= tip <= 51
    ensures IsScenario(RaceScenario(tip, held))
    ensures var s := RaceScenario(tip, held); !OneChain(s.env.ledger, s.a.hash, s.b.hash)
  {
    RaceIsHistory(tip, held);
    var s := RaceScenario(tip, held);
    if Descends(s.env.ledger, s.a.hash, s.b.hash) {
      DescendsNumber(s.env.ledger, s.a.hash, s.b.hash);
    }
    if Descends(s.env.ledger, s.b.hash, s.a.hash) {
      DescendsNumber(s.env.ledger, s.b.hash, s.a.hash);
    }
  }

  /** The canonical block is judged final. */
  lemma CanonicalVerdict(p: Params, c: Config, held: map<Hash, Bytes>)
    requires c.minConfirmations <= 50 && c.confidenceThreshold <= 1.0 && 1 !in held
    ensures var s := RaceScenario(c.minConfirmations + 1, held); IsFinal(s.env, p, c, s.hs, s.b, s.rb) == Ok(true)
  {
    var s := RaceScenario(c.minConfirmations + 1, held);
    assert GetFinalityStatus(s.env, s.hs, 1, Moment(1)) == Ok(Status(1, c.minConfirmations, false, true, 0.0));
  }

  /** With a full justification the fork block is judged final at thresholds up to 0.6. */
  lemma JustifiedForkVerdict(p: Params, c: Config)
    requires c.minConfirmations <= 50 && c.confidenceThreshold <= 0.6 && 0.0 <= p.minParticipation <= 1.0
    ensures var tip := c.minConfirmations + 1;
            var s := RaceScenario(tip, ForkJustification(tip));
            IsFinal(s.env, p, c, s.hs, s.a, s.ra) == Ok(true)
  {
    var tip := c.minConfirmations + 1;
    var s := RaceScenario(tip, ForkJustification(tip));
    var ps := [RACE_PRECOMMIT];
    assert ps[..0] == [];
    assert ExactWeight(RACE_PRIMITIVES, OneVoter(), ps) == 1;
    assert Rate(RACE_PRIMITIVES, OneVoter(), ps) == 1.0;
    var early := GetFinalityStatus(s.env, s.hs, s.a.hash, s.ra.first).value;
    assert early == Status(1, 0, true, false, 1.0);
    assert ParticipationConfidence(p, true, 1.0) == 1.0;
    assert GetFinalityStatus(s.env, s.hs, s.a.hash, s.ra.second) == Ok(Status(1, c.minConfirmations, true, true, 1.0));
  }

  /** Without any justification it is at thresholds up to 0.2. */
  lemma PlainForkVerdict(p: Params, c: Config)
    requires c.minConfirmations <= 50 && c.confidenceThreshold <= 0.2
    ensures var s := RaceScenario(c.minConfirmations + 1, map[]); IsFinal(s.env, p, c, s.hs, s.a, s.ra) == Ok(true)
  {
    var s := RaceScenario(c.minConfirmations + 1, map[]);
    assert GetFinalityStatus(s.env, s.hs, s.a.hash, s.ra.first) == Ok(Status(1, 0, false, false, 0.0));
    assert GetFinalityStatus(s.env, s.hs, s.a.hash, s.ra.second) == Ok(Status(1, c.minConfirmations, false, true, 0.0));
  }

  /**
   Below the gap the race is real: a fork block carrying a full justification and the canonical block at its
   height are both judged final.
   */
  lemma LowThresholdDisagrees(p: Params, c: Config)
    requires c.minConfirmations <= 50 && c.confidenceThreshold <= 0.6 && 0.0 <= p.minParticipation <= 1.0
    ensures var tip := c.minConfirmations + 1;
            var s := RaceScenario(tip, ForkJustification(tip));
            IsScenario(s) && BothFinal(p, c, s) && !OneChain(s.env.ledger, s.a.hash, s.b.hash)
  {
    var tip := c.minConfirmations + 1;
    RaceConflict(tip, ForkJustification(tip));
    JustifiedForkVerdict(p, c);
    CanonicalVerdict(p, c, ForkJustification(tip));
  }

  /**
   Agreement, exactly: for a required participation in [0, 1], verdicts agree over all histories and all
   interleavings if and only if the confidence threshold is above 0.6, or more than 50 confirmations are
   demanded and no verdict is ever true.
   */
  lemma AgreementExact(p: Params, c: Config)
    requires 0.0 <= p.minParticipation <= 1.0
    ensures AlwaysAgrees(p, c) <==> c.confidenceThreshold > 0.6 || c.minConfirmations > 50
  {
    if c.minConfirmations > 50 {
      forall s: Scenario | IsScenario(s) ensures !BothFinal(p, c, s) {
        TooManyConfirmations(s.env, p, c, s.hs, s.a, s.ra);
      }
    } else if c.confidenceThreshold > 0.6 {
      forall s: Scenario | IsScenario(s) && BothFinal(p, c, s) ensures OneChain(s.env.ledger, s.a.hash, s.b.hash) {
        HighThresholdAgrees(p, c, s);
      }
    } else {
      LowThresholdDisagrees(p, c);
    }
  }

  // ----- Blocks without justifications

  /** The client never holds a justification of either block. */
  ghost predicate Unjustified(s: Scenario) {
    forall i :: 0 <= i < |s.hs| ==> s.a.hash !in s.hs[i].justifications && s.b.hash !in s.hs[i].justifications
  }

  ghost predicate AgreesUnjustified(p: Params, c: Config) {
    forall s: Scenario :: IsScenario(s) && Unjustified(s) && BothFinal(p, c, s) ==>
        OneChain(s.env.ledger, s.a.hash, s.b.hash)
  }

  lemma UnjustifiedHighThresholdAgrees(p: Params, c: Config, s: Scenario)
    requires c.confidenceThreshold > 0.2 && IsScenario(s) && Unjustified(s) && BothFinal(p, c, s)
    ensures OneChain(s.env.ledger, s.a.hash, s.b.hash)
  {
    var last := |s.hs| - 1;
    UnjustifiedMeansFinalized(s.env, p, c, s.hs, s.a, s.ra);
    UnjustifiedMeansFinalized(s.env, p, c, s.hs, s.b, s.rb);
    FinalizedFirstIsCanonical(s.env, p, c, s.hs, s.a, s.ra, last);
    FinalizedFirstIsCanonical(s.env, p, c, s.hs, s.b, s.rb, last);
    AncestorsAreOneChain(s.env.ledger, s.a.hash, s.b.hash, s.hs[last].finalizedHash);
  }

  lemma UnjustifiedMeansFinalized(env: Env, p: Params, c: Config, hs: History, ref: BlockRef, r: CallReads)
    requires CallInRange(r, |hs|) && ref.hash !in hs[r.first.justification].justifications
    requires c.confidenceThreshold > 0.2 && IsFinal(env, p, c, hs, ref, r) == Ok(true)
    ensures ref.hash in env.ledger.headers
    ensures env.ledger.headers[ref.hash].number <= hs[r.first.info].finalizedNumber
  {
    ConfidenceGap(env, p, hs, ref.hash, r.first);
  }

  /**
   The same for blocks no justification is ever held for: verdicts agree if and only if the threshold is above
   0.2, the base confidence, or more than 50 confirmations are demanded, whatever the required participation.
   */
  lemma UnjustifiedAgreementExact(p: Params, c: Config)
    ensures AgreesUnjustified(p, c) <==> c.confidenceThreshold > 0.2 || c.minConfirmations > 50
  {
    if c.minConfirmations > 50 {
      forall s: Scenario | IsScenario(s) ensures !BothFinal(p, c, s) {
        TooManyConfirmations(s.env, p, c, s.hs, s.a, s.ra);
      }
    } else if c.confidenceThreshold > 0.2 {
      forall s: Scenario | IsScenario(s) && Unjustified(s) && BothFinal(p, c, s)
        ensures OneChain(s.env.ledger, s.a.hash, s.b.hash)
      {
        UnjustifiedHighThresholdAgrees(p, c, s);
      }
    } else {
      var tip := c.minConfirmations + 1;
      RaceConflict(tip, map[]);
      PlainForkVerdict(p, c);
      CanonicalVerdict(p, c, map[]);
      assert Unjustified(RaceScenario(tip, map[]));
    }
  }

  // ----- When a verdict can be true at all

  /** The scenario's second call answers true. */
  ghost predicate TrueIn(p: Params, c: Config, s: Scenario) {
    IsScenario(s) && IsFinal(s.env, p, c, s.hs, s.b, s.rb) == Ok(true)
  }

  ghost predicate SomeVerdictTrue(p: Params, c: Config) {
    exists s: Scenario :: TrueIn(p, c, s)
  }

  lemma TrueVerdictNeeds(p: Params, c: Config, s: Scenario)
    requires TrueIn(p, c, s)
    ensures c.minConfirmations <= 50 && c.confidenceThreshold <= 1.0
  {
    TrueVerdictChecks(s.env, p, c, s.hs, s.b, s.rb);
    if c.minConfirmations > 50 {
      TooManyConfirmations(s.env, p, c, s.hs, s.b, s.rb);
    }
  }

  lemma TrueVerdictWitness(p: Params, c: Config)
    requires c.minConfirmations <= 50 && c.confidenceThreshold <= 1.0
    ensures TrueIn(p, c, RaceScenario(c.minConfirmations + 1, map[]))
  {
    RaceConflict(c.minConfirmations + 1, map[]);
    CanonicalVerdict(p, c, map[]);
  }

  /** Some call on some history gives a true verdict if and only if the configuration asks for the possible. */
  lemma VerdictPossibleExact(p: Params, c: Config)
    ensures SomeVerdictTrue(p, c) <==> c.minConfirmations <= 50 && c.confidenceThreshold <= 1.0
  {
    if c.minConfirmations <= 50 && c.confidenceThreshold <= 1.0 {
      TrueVerdictWitness(p, c);
    } else if s: Scenario :| TrueIn(p, c, s) {
      TrueVerdictNeeds(p, c, s);
    }
  }
}
