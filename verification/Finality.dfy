/**
 The finality verdict (src/finality/mod.rs): status, confidence, chain rules and is_final, as branching
 computations over the snapshots each client read happens to see.
 */
module Finality {
  import opened Common
  import opened Voters
  import opened Chain

  const MAX_FORK_DEPTH: nat := 50
  const MIN_PARTICIPATION: real := 0.67

  datatype Env = Env(ledger: Ledger, prims: Primitives)

  datatype BlockRef = BlockRef(hash: Hash, number: U64)

  /** The verification client's parameters and the predicate's configuration. */
  datatype Params = Params(minConfirmations: U32, minParticipation: real)
  datatype Config = Config(minConfirmations: U32, confidenceThreshold: real)
  datatype Rules = Rules(minConfirmations: U32, maxForkDepth: U32, minParticipation: real)

  datatype Status = Status(
    blockNumber: nat,
    confirmations: nat,
    hasJustification: bool,
    isFinalized: bool,
    participationRate: real
  )

  datatype ClientError = ChainError | BlockNotFound
  datatype FinalityError = ChainFailure | ConsensusFailure

  /** The moments, as positions in the history, at which the reads of one call happen. */
  datatype StatusReads = StatusReads(header: nat, info: nat, justification: nat, voters: nat)
  datatype CallReads = CallReads(hash: nat, first: StatusReads, second: StatusReads, best: nat)

  predicate InRange(r: StatusReads, n: nat) {
    r.header < n && r.info < n && r.justification < n && r.voters < n
  }

  predicate CallInRange(r: CallReads, n: nat) {
    r.hash < n && InRange(r.first, n) && InRange(r.second, n) && r.best < n
  }

  /** Reads happen in program order; the chain may advance between any two of them. */
  predicate InOrder(r: StatusReads) {
    r.header <= r.info <= r.justification <= r.voters
  }

  predicate CallInOrder(r: CallReads) {
    && InOrder(r.first) && InOrder(r.second)
    && r.hash <= r.first.header && r.first.voters <= r.second.header && r.second.voters <= r.best
  }

  /** A call during which the chain does not move. */
  function Moment(i: nat): StatusReads {
    StatusReads(i, i, i, i)
  }

  function CallAt(i: nat): CallReads {
    CallReads(i, Moment(i), Moment(i), i)
  }

  function RulesFor(c: Config): Rules {
    Rules(c.minConfirmations, MAX_FORK_DEPTH, MIN_PARTICIPATION)
  }

  function ReadHeader(env: Env, w: World, h: Hash): Result<Header, ClientError> {
    if w.headerFault then Err(ChainError) else
      match HeaderOf(env.ledger, w, h)
      case None => Err(BlockNotFound)
      case Some(header) => Ok(header)
  }

  function VerifyBlockHash(env: Env, w: World, ref: BlockRef): Result<bool, ClientError> {
    match ReadHeader(env, w, ref.hash)
    case Err(e) => Err(e)
    case Ok(header) => Ok(header.number == Saturated(env.ledger.maxNumber, ref.number))
  }

  function GetFinalityStatus(env: Env, hs: History, h: Hash, r: StatusReads): Result<Status, ClientError>
    requires InRange(r, |hs|)
  {
    match ReadHeader(env, hs[r.header], h)
    case Err(e) => Err(e)
    case Ok(header) =>
      var latestFinalized := hs[r.info].finalizedNumber;
      if hs[r.justification].justificationFault then Err(ChainError) else
        var has := h in hs[r.justification].justifications;
        var decoded := if has then env.prims.decode(hs[r.justification].justifications[h]) else None;
        Ok(Status(
             header.number,
             SaturatingSub(latestFinalized, header.number),
             has,
             header.number <= latestFinalized,
             if decoded.Some? then Rate(env.prims, hs[r.voters].voters, decoded.value.precommits) else 0.0))
  }

  /** Division and `min` as on floats: a zero divisor gives infinity or not-a-number, and `min(1.0)` gives 1.0. */
  function ParticipationConfidence(p: Params, hasJustification: bool, rate: real): real {
    if !hasJustification then 0.0
    else if p.minParticipation == 0.0 then 1.0
    else MinReal(rate / p.minParticipation, 1.0)
  }

  function ConfirmationConfidence(p: Params, s: Status): real {
    MinReal(if p.minConfirmations > 0 then s.confirmations as real / p.minConfirmations as real else 0.0, 1.0)
  }

  function Uncapped(p: Params, s: Status): real {
    ConfirmationConfidence(p, s) * 0.4 + ParticipationConfidence(p, s.hasJustification, s.participationRate) * 0.4 + 0.2
  }

  function ConfidenceOf(p: Params, s: Status): real {
    if s.isFinalized then 1.0 else MinReal(Uncapped(p, s), 0.95)
  }

  function GetFinalityConfidence(env: Env, p: Params, hs: History, h: Hash, r: StatusReads): Result<real, ClientError>
    requires InRange(r, |hs|)
  {
    match GetFinalityStatus(env, hs, h, r)
    case Err(e) => Err(e)
    case Ok(s) => Ok(ConfidenceOf(p, s))
  }

  function VerifyChainRules(env: Env, hs: History, h: Hash, rules: Rules, r: StatusReads, best: nat)
    : Result<bool, ClientError>
    requires InRange(r, |hs|) && best < |hs|
  {
    match GetFinalityStatus(env, hs, h, r)
    case Err(e) => Err(e)
    case Ok(s) =>
      if s.confirmations < Saturated(env.ledger.maxNumber, rules.minConfirmations) then Ok(false)
      else if SaturatingSub(hs[best].bestNumber, s.blockNumber)
              > Saturated(env.ledger.maxNumber, rules.maxForkDepth) then Ok(false)
      else if s.hasJustification && s.participationRate < rules.minParticipation then Ok(false)
      else Ok(true)
  }

  function IsFinal(env: Env, p: Params, c: Config, hs: History, ref: BlockRef, r: CallReads)
    : Result<bool, FinalityError>
    requires CallInRange(r, |hs|)
  {
    match VerifyBlockHash(env, hs[r.hash], ref)
    case Err(_) => Err(ChainFailure)
    case Ok(exists') =>
      if !exists' then Err(ChainFailure) else
        match GetFinalityConfidence(env, p, hs, ref.hash, r.first)
        case Err(_) => Err(ConsensusFailure)
        case Ok(confidence) =>
          if confidence < c.confidenceThreshold then Ok(false) else
            match VerifyChainRules(env, hs, ref.hash, RulesFor(c), r.second, r.best)
            case Err(_) => Err(ConsensusFailure)
            case Ok(valid) => Ok(valid)
  }

  // ----- What the reads find

  /** At this moment the client finds the referenced block, under the number the reference converts to. */
  predicate Found(env: Env, w: World, ref: BlockRef) {
    && !w.headerFault && ref.hash in w.held && ref.hash in env.ledger.headers
    && env.ledger.headers[ref.hash].number ==
       if ref.number <= env.ledger.maxNumber then ref.number else env.ledger.maxNumber
  }

  /** The client answers both fallible reads of one status. */
  predicate Readable(hs: History, h: Hash, r: StatusReads)
    requires InRange(r, |hs|)
  {
    !hs[r.header].headerFault && h in hs[r.header].held && !hs[r.justification].justificationFault
  }

  /** The rate one status finds for a justified block: that of its precommits, or zero if it does not decode. */
  function RateFound(env: Env, hs: History, h: Hash, r: StatusReads): real
    requires InRange(r, |hs|) && h in hs[r.justification].justifications
  {
    match env.prims.decode(hs[r.justification].justifications[h])
    case None => 0.0
    case Some(j) => Rate(env.prims, hs[r.voters].voters, j.precommits)
  }

  /** Looking a block up under its number fails on a faulty client and on a missing header, in that order. */
  lemma BlockHashExact(env: Env, w: World, ref: BlockRef)
    ensures var result := VerifyBlockHash(env, w, ref);
            if w.headerFault then result == Err(ChainError)
            else if !(ref.hash in w.held && ref.hash in env.ledger.headers) then result == Err(BlockNotFound)
            else result == Ok(Found(env, w, ref))
  {
  }

  /**
   Which error a status is, and otherwise what it says: a finalized block's number plus its confirmations is the
   finalized height, an unfinalized one has none.
   */
  lemma StatusExact(env: Env, hs: History, h: Hash, r: StatusReads)
    requires InRange(r, |hs|)
    ensures var result := GetFinalityStatus(env, hs, h, r);
            if hs[r.header].headerFault then result == Err(ChainError)
            else if !(h in hs[r.header].held && h in env.ledger.headers) then result == Err(BlockNotFound)
            else if hs[r.justification].justificationFault then result == Err(ChainError)
            else result.Ok? && DescribesBlock(env, hs, h, r, result.value)
  {
  }

  predicate DescribesBlock(env: Env, hs: History, h: Hash, r: StatusReads, s: Status)
    requires InRange(r, |hs|) && h in env.ledger.headers
  {
    var n, finalized := env.ledger.headers[h].number, hs[r.info].finalizedNumber;
    && s.blockNumber == n
    && (s.isFinalized <==> n <= finalized)
    && (if n <= finalized then n + s.confirmations == finalized else s.confirmations == 0)
    && (s.hasJustification <==> h in hs[r.justification].justifications)
    && s.participationRate == if s.hasJustification then RateFound(env, hs, h, r) else 0.0
  }

  lemma RateNonNegative(env: Env, hs: History, h: Hash, r: StatusReads)
    requires InRange(r, |hs|) && h in hs[r.justification].justifications
    ensures RateFound(env, hs, h, r) >= 0.0
  {
    TotalPositive(hs[r.voters].voters);
  }

  // ----- Confidence

  /**
   The confidence of any unfinalized status, from its two factors: each is 1 once its requirement is met and in
   proportion to it below, neither with nothing required of confirmations nor without a justification is there
   any, and each carries 0.4 on a base of 0.2, up to 0.95.
   */
  lemma ConfidenceFactors(p: Params, s: Status) returns (confirmed: real, participated: real)
    requires !s.isFinalized && s.participationRate >= 0.0
    ensures if p.minConfirmations == 0 then confirmed == 0.0
            else if s.confirmations >= p.minConfirmations then confirmed == 1.0
            else confirmed * p.minConfirmations as real == s.confirmations as real
    ensures if !s.hasJustification then participated == 0.0
            else if 0.0 <= p.minParticipation <= s.participationRate || p.minParticipation == 0.0
            then participated == 1.0
            else participated * p.minParticipation == s.participationRate
    ensures var sum := 0.4 * confirmed + 0.4 * participated + 0.2;
            ConfidenceOf(p, s) == if sum <= 0.95 then sum else 0.95
  {
    confirmed := ConfirmationConfidence(p, s);
    participated := ParticipationConfidence(p, s.hasJustification, s.participationRate);
    if p.minConfirmations > 0 {
      CappedRatio(s.confirmations as real, p.minConfirmations as real);
    }
    if p.minParticipation != 0.0 {
      CappedRatio(s.participationRate, p.minParticipation);
    }
  }

  lemma CappedRatio(a: real, b: real)
    requires a >= 0.0 && b != 0.0
    ensures MinReal(a / b, 1.0) == 1.0 <==> 0.0 < b <= a
    ensures !(0.0 < b <= a) ==> MinReal(a / b, 1.0) * b == a
  {
    assert a / b * b == a;
  }

  /**
   The confidence of a block, exactly: 1.0 at a finalized height, 0.2 without a justification, 0.6 with one that
   meets the required participation, and below it in proportion.
   */
  lemma ConfidenceExact(env: Env, p: Params, hs: History, h: Hash, r: StatusReads)
    requires InRange(r, |hs|) && GetFinalityConfidence(env, p, hs, h, r).Ok?
    ensures h in env.ledger.headers
    ensures var confidence, required := GetFinalityConfidence(env, p, hs, h, r).value, p.minParticipation;
            if env.ledger.headers[h].number <= hs[r.info].finalizedNumber then confidence == 1.0
            else if h !in hs[r.justification].justifications then confidence == 0.2
            else
              var rate := RateFound(env, hs, h, r);
              if required == 0.0 || 0.0 < required <= rate then confidence == 0.6
              else (confidence - 0.2) * required == 0.4 * rate
  {
    StatusExact(env, hs, h, r);
    var s := GetFinalityStatus(env, hs, h, r).value;
    if h in hs[r.justification].justifications {
      RateNonNegative(env, hs, h, r);
    }
    if !s.isFinalized {
      UnfinalizedConfidence(p, s);
    }
  }

  lemma UnfinalizedConfidence(p: Params, s: Status)
    requires !s.isFinalized && s.confirmations == 0 && s.participationRate >= 0.0
    ensures var confidence, required, rate := ConfidenceOf(p, s), p.minParticipation, s.participationRate;
            if !s.hasJustification then confidence == 0.2
            else if required == 0.0 || 0.0 < required <= rate then confidence == 0.6
            else (confidence - 0.2) * required == 0.4 * rate
  {
    var confirmed, participated := ConfidenceFactors(p, s);
    assert confirmed == 0.0 && participated <= 1.0;
  }

  lemma ConfidentExact(env: Env, p: Params, c: Config, hs: History, h: Hash, r: StatusReads)
    requires InRange(r, |hs|) && GetFinalityConfidence(env, p, hs, h, r).Ok? && h in env.ledger.headers
    ensures Confident(env, p, c, hs, h, r) <==> c.confidenceThreshold <= GetFinalityConfidence(env, p, hs, h, r).value
  {
    ConfidenceExact(env, p, hs, h, r);
    if env.ledger.headers[h].number > hs[r.info].finalizedNumber && h in hs[r.justification].justifications {
      ThresholdAgainst(c.confidenceThreshold, GetFinalityConfidence(env, p, hs, h, r).value, p.minParticipation,
                       RateFound(env, hs, h, r));
    }
  }

  lemma ThresholdAgainst(threshold: real, confidence: real, required: real, rate: real)
    requires if required == 0.0 || 0.0 < required <= rate then confidence == 0.6
             else (confidence - 0.2) * required == 0.4 * rate
    ensures WithinConfidence(threshold, required, true, rate) <==> threshold <= confidence
  {
    OrderScaled(threshold - 0.2, confidence - 0.2, required);
  }

  lemma OrderScaled(a: real, b: real, d: real)
    ensures d > 0.0 ==> (a <= b <==> a * d <= b * d)
    ensures d < 0.0 ==> (a <= b <==> a * d >= b * d)
  {
    assert (b - a) * d == b * d - a * d;
  }

  /**
   The confidence gap: confidence is exactly 1.0 at or below the finalized height read by the call and at
   most 0.6 above it, whatever the parameters.  So the 0.95 cap never binds.
   */
  lemma ConfidenceGap(env: Env, p: Params, hs: History, h: Hash, r: StatusReads)
    requires InRange(r, |hs|) && GetFinalityConfidence(env, p, hs, h, r).Ok?
    ensures h in env.ledger.headers
    ensures var confidence := GetFinalityConfidence(env, p, hs, h, r).value;
            if env.ledger.headers[h].number <= hs[r.info].finalizedNumber then confidence == 1.0
            else
              && confidence <= 0.6
              && confidence == Uncapped(p, GetFinalityStatus(env, hs, h, r).value)
              && (p.minParticipation >= 0.0 ==> confidence >= 0.2)
  {
  }

  /**
   Any threshold above 0.6 admits finalized heights only, even with no confirmations demanded and with
   the chain advancing during the call.
   */
  lemma HighThresholdMeansFinalized(env: Env, p: Params, c: Config, hs: History, ref: BlockRef, r: CallReads)
    requires CallInRange(r, |hs|)
    requires c.confidenceThreshold > 0.6 && IsFinal(env, p, c, hs, ref, r) == Ok(true)
    ensures ref.hash in env.ledger.headers
    ensures env.ledger.headers[ref.hash].number <= hs[r.first.info].finalizedNumber
  {
    ConfidenceGap(env, p, hs, ref.hash, r.first);
  }

  // ----- Soundness

  /**
   The chain rules, for any rules a caller asks for: confirmations, then the height window, then the participation
   of a justified block.
   */
  lemma ChainRulesExact(env: Env, hs: History, h: Hash, rules: Rules, r: StatusReads, best: nat)
    requires IsLedger(env.ledger) && InRange(r, |hs|) && best < |hs|
    ensures var result, status := VerifyChainRules(env, hs, h, rules, r, best), GetFinalityStatus(env, hs, h, r);
            match status
            case Err(e) => result == Err(e)
            case Ok(s) =>
              var n := env.ledger.headers[h].number;
              result == Ok(
                && (rules.minConfirmations > 0 ==> n + rules.minConfirmations <= hs[r.info].finalizedNumber)
                && hs[best].bestNumber <= n + rules.maxForkDepth
                && (h in hs[r.justification].justifications ==> RateFound(env, hs, h, r) >= rules.minParticipation))
  {
    StatusExact(env, hs, h, r);
  }

  /** What a true verdict checked last. */
  lemma TrueVerdictChecks(env: Env, p: Params, c: Config, hs: History, ref: BlockRef, r: CallReads)
    requires IsLedger(env.ledger) && CallInRange(r, |hs|) && IsFinal(env, p, c, hs, ref, r) == Ok(true)
    ensures c.confidenceThreshold <= 1.0
    ensures ref.hash in env.ledger.headers
    ensures env.ledger.headers[ref.hash].number == Saturated(env.ledger.maxNumber, ref.number)
    ensures GetFinalityStatus(env, hs, ref.hash, r.second).Ok?
    ensures PassesRules(c, env.ledger.headers[ref.hash].number, hs[r.second.info].finalizedNumber,
                        hs[r.best].bestNumber, GetFinalityStatus(env, hs, ref.hash, r.second).value)
  {
  }

  predicate PassesRules(c: Config, n: nat, finalized: nat, best: nat, s: Status) {
    && (c.minConfirmations > 0 ==> n + c.minConfirmations <= finalized)
    && best <= n + 50
    && (s.hasJustification ==> s.participationRate >= 0.67)
  }

  /**
   Soundness under interleaving: whatever the chain does between the reads, a true verdict with at least
   one required confirmation means the referenced height plus the confirmations is finalized when the call
   returns and at every later moment.  In particular the saturating conversion of the number was exact.
   */
  lemma VerdictSound(env: Env, p: Params, c: Config, hs: History, ref: BlockRef, r: CallReads, k: nat)
    requires IsHistory(env.ledger, hs) && CallInRange(r, |hs|) && CallInOrder(r)
    requires c.minConfirmations >= 1 && IsFinal(env, p, c, hs, ref, r) == Ok(true)
    requires r.second.info <= k < |hs|
    ensures ref.hash in env.ledger.headers && env.ledger.headers[ref.hash].number == ref.number
    ensures ref.number + c.minConfirmations <= hs[k].finalizedNumber
  {
    TrueVerdictChecks(env, p, c, hs, ref, r);
    Later(env.ledger, hs, r.second.info, k);
    assert IsWorld(env.ledger, hs[k]);
  }

  // ----- The exact verdict

  /** The threshold lies within the confidence of an unfinalized block, for each kind of required participation. */
  predicate WithinConfidence(threshold: real, required: real, justified: bool, rate: real) {
    if !justified then threshold <= 0.2
    else if required == 0.0 then threshold <= 0.6
    else if required > 0.0 then (if rate >= required then threshold <= 0.6
                                 else (threshold - 0.2) * required <= 0.4 * rate)
    else (threshold - 0.2) * required >= 0.4 * rate
  }

  /** The first status is confident enough: of a finalized height up to 1.0, of any other as its vote allows. */
  predicate Confident(env: Env, p: Params, c: Config, hs: History, h: Hash, r: StatusReads)
    requires InRange(r, |hs|) && h in env.ledger.headers
  {
    if env.ledger.headers[h].number <= hs[r.info].finalizedNumber then c.confidenceThreshold <= 1.0 else
      var justified := h in hs[r.justification].justifications;
      WithinConfidence(c.confidenceThreshold, p.minParticipation, justified,
                       if justified then RateFound(env, hs, h, r) else 0.0)
  }

  /** The second status and the last look at the best height pass every rule. */
  predicate Passes(env: Env, c: Config, hs: History, h: Hash, r: StatusReads, best: nat)
    requires InRange(r, |hs|) && best < |hs| && h in env.ledger.headers
  {
    var n := env.ledger.headers[h].number;
    && (c.minConfirmations > 0 ==> n + c.minConfirmations <= hs[r.info].finalizedNumber)
    && hs[best].bestNumber <= n + 50
    && (h in hs[r.justification].justifications ==> RateFound(env, hs, h, r) >= 0.67)
  }

  /**
   The exact verdict, each condition on the moment of its own read and whatever the chain does in between: a
   chain error if the first look does not find the block, a consensus error if a status that is needed cannot be
   read, and otherwise true exactly if the first status is confident enough and the second passes the rules.
   */
  lemma VerdictExact(env: Env, p: Params, c: Config, hs: History, ref: BlockRef, r: CallReads)
    requires IsHistory(env.ledger, hs) && CallInRange(r, |hs|)
    ensures var verdict := IsFinal(env, p, c, hs, ref, r);
            if !Found(env, hs[r.hash], ref) then verdict == Err(ChainFailure)
            else if !Readable(hs, ref.hash, r.first) then verdict == Err(ConsensusFailure)
            else if !Confident(env, p, c, hs, ref.hash, r.first) then verdict == Ok(false)
            else if !Readable(hs, ref.hash, r.second) then verdict == Err(ConsensusFailure)
            else verdict == Ok(Passes(env, c, hs, ref.hash, r.second, r.best))
  {
    if Found(env, hs[r.hash], ref) {
      StatusExact(env, hs, ref.hash, r.first);
      if Readable(hs, ref.hash, r.first) {
        ConfidentExact(env, p, c, hs, ref.hash, r.first);
        RulesExact(env, c, hs, ref.hash, r.second, r.best);
      }
    }
  }

  lemma RulesExact(env: Env, c: Config, hs: History, h: Hash, r: StatusReads, best: nat)
    requires IsHistory(env.ledger, hs) && InRange(r, |hs|) && best < |hs| && h in env.ledger.headers
    ensures var result := VerifyChainRules(env, hs, h, RulesFor(c), r, best);
            if Readable(hs, h, r) then result == Ok(Passes(env, c, hs, h, r, best)) else result.Err?
  {
    StatusExact(env, hs, h, r);
    ChainRulesExact(env, hs, h, RulesFor(c), r, best);
  }

  /** Demanding more than 50 confirmations can never be satisfied: the height window closes first. */
  lemma TooManyConfirmations(env: Env, p: Params, c: Config, hs: History, ref: BlockRef, r: CallReads)
    requires IsHistory(env.ledger, hs) && CallInRange(r, |hs|) && CallInOrder(r)
    requires c.minConfirmations > 50
    ensures IsFinal(env, p, c, hs, ref, r) != Ok(true)
  {
    Later(env.ledger, hs, r.second.info, r.best);
    assert IsWorld(env.ledger, hs[r.best]);
    if IsFinal(env, p, c, hs, ref, r) == Ok(true) {
      TrueVerdictChecks(env, p, c, hs, ref, r);
    }
  }

  // ----- Justified verdicts

  /** An undecodable justification blocks every true verdict. */
  lemma JustificationMustDecode(env: Env, p: Params, c: Config, hs: History, ref: BlockRef, r: CallReads)
    requires CallInRange(r, |hs|) && IsFinal(env, p, c, hs, ref, r) == Ok(true)
    requires ref.hash in hs[r.second.justification].justifications
    ensures var decoded := env.prims.decode(hs[r.second.justification].justifications[ref.hash]);
            decoded.Some? && Rate(env.prims, hs[r.second.voters].voters, decoded.value.precommits) >= 0.67
  {
  }

  /** The precommits whose weight the final check of a call measured. */
  function CheckedPrecommits(env: Env, hs: History, h: Hash, r: CallReads): seq<SignedPrecommit>
    requires CallInRange(r, |hs|)
  {
    var w := hs[r.second.justification];
    if h in w.justifications && env.prims.decode(w.justifications[h]).Some?
    then env.prims.decode(w.justifications[h]).value.precommits
    else []
  }

  /**
   Quorum intersection between verdicts: two blocks judged final on justifications checked against one
   voter set, with distinct signers in each, share signers of more than a third of the weight.
   */
  lemma VerdictsShareSigners(env: Env, p: Params, c: Config, hs: History, a: BlockRef, ra: CallReads, b: BlockRef,
                             rb: CallReads)
    requires CallInRange(ra, |hs|) && CallInRange(rb, |hs|)
    requires IsFinal(env, p, c, hs, a, ra) == Ok(true) && IsFinal(env, p, c, hs, b, rb) == Ok(true)
    requires a.hash in hs[ra.second.justification].justifications
    requires b.hash in hs[rb.second.justification].justifications
    requires hs[ra.second.voters].voters == hs[rb.second.voters].voters
    requires DistinctSigners(env.prims, hs[ra.second.voters].voters, CheckedPrecommits(env, hs, a.hash, ra))
    requires DistinctSigners(env.prims, hs[rb.second.voters].voters, CheckedPrecommits(env, hs, b.hash, rb))
    ensures var v := hs[ra.second.voters].voters;
            var shared := SumOver(v.weights,
                                  Signers(env.prims, v, CheckedPrecommits(env, hs, a.hash, ra)) *
                                  Signers(env.prims, v, CheckedPrecommits(env, hs, b.hash, rb)));
            shared as real >= 0.34 * v.total as real && 3 * shared > v.total
  {
    JustificationMustDecode(env, p, c, hs, a, ra);
    JustificationMustDecode(env, p, c, hs, b, rb);
    QuorumIntersection(env.prims, hs[ra.second.voters].voters,
                       CheckedPrecommits(env, hs, a.hash, ra), CheckedPrecommits(env, hs, b.hash, rb));
  }
}
