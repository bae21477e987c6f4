/**
 Justification checks and authority updates under the voter set's read-write lock
 (src/finality/mod.rs, verify_justification, handle_authority_set_update, update_authorities_from_runtime),
 as a state machine over the threads' steps.
 */
module VoterLock {
  import opened Common
  import opened Voters

  datatype UpdateError = ChainError | AuthoritySetError

  /** The voter set field, replaced in place; `built` is what the GRANDPA library makes of an authority list. */
  class SharedVoterSet {
    var voterSet: VoterSet
    const minParticipation: real

    constructor (voterSet: VoterSet, minParticipation: real)
      ensures this.voterSet == voterSet && this.minParticipation == minParticipation
    {
      this.voterSet, this.minParticipation := voterSet, minParticipation;
    }

    /** A check reads the one set installed when it runs. */
    method Verify(prims: Primitives, ps: seq<SignedPrecommit>) returns (accepted: bool, rate: real)
      ensures rate == Rate(prims, voterSet, ps) && (accepted <==> rate >= minParticipation)
    {
      accepted, rate := VerifyJustification(prims, voterSet, ps, minParticipation);
    }

    /** An update that fails leaves the set unchanged; one that succeeds installs the new set whole. */
    method HandleAuthoritySetUpdate(built: Option<VoterSet>) returns (r: Result<(), UpdateError>)
      modifies this`voterSet
      ensures match built
              case None => r == Err(AuthoritySetError) && voterSet == old(voterSet)
              case Some(v) => r == Ok(()) && voterSet == v
    {
      if built.None? {
        return Err(AuthoritySetError);
      }
      voterSet := built.value;
      return Ok(());
    }

    /** The same, from the runtime's authorities, which may be unavailable. */
    method UpdateAuthoritiesFromRuntime(fetched: Option<Option<VoterSet>>) returns (r: Result<(), UpdateError>)
      modifies this`voterSet
      ensures match fetched
              case None => r == Err(ChainError) && voterSet == old(voterSet)
              case Some(None) => r == Err(AuthoritySetError) && voterSet == old(voterSet)
              case Some(Some(v)) => r == Ok(()) && voterSet == v
    {
      if fetched.None? {
        return Err(ChainError);
      }
      r := HandleAuthoritySetUpdate(fetched.value);
    }
  }

  type Thread = nat

  /** A check in progress: its place in the precommits, the weight so far, and the set current when it began. */
  datatype Check = Check(precommits: seq<SignedPrecommit>, next: nat, signedWeight: nat, begun: nat)

  /** A finished check, with the positions of the sets current at its beginning and its end. */
  datatype Verdict = Verdict(precommits: seq<SignedPrecommit>, rate: real, begun: nat, ended: nat)

  /** All voter sets ever installed, the last one current; who holds the lock; the finished checks. */
  datatype State = State(
    installed: seq<VoterSet>,
    readers: map<Thread, Check>,
    writer: Option<Thread>,
    verdicts: seq<Verdict>
  )

  datatype Step =
    | BeginCheck(thread: Thread, precommits: seq<SignedPrecommit>)
    | CountOne(thread: Thread)
    | FinishCheck(thread: Thread)
    | TakeWriteLock(thread: Thread)
    | Install(thread: Thread, built: Option<VoterSet>)

  function Current(s: State): VoterSet
    requires s.installed != []
  {
    s.installed[|s.installed| - 1]
  }

  predicate Enabled(s: State, step: Step) {
    match step
    case BeginCheck(t, _) => s.writer.None? && t !in s.readers
    case CountOne(t) => t in s.readers && s.readers[t].next < |s.readers[t].precommits|
    case FinishCheck(t) => t in s.readers && s.readers[t].next == |s.readers[t].precommits|
    case TakeWriteLock(t) => s.writer.None? && s.readers == map[]
    case Install(t, _) => s.writer == Some(t)
  }

  /** One atomic step.  A failed construction releases the lock and leaves the set alone. */
  function Take(prims: Primitives, s: State, step: Step): State
    requires s.installed != [] && Enabled(s, step)
  {
    match step
    case BeginCheck(t, ps) => s.(readers := s.readers[t := Check(ps, 0, 0, |s.installed| - 1)])
    case CountOne(t) =>
      var c := s.readers[t];
      var p := c.precommits[c.next];
      var v := Current(s);
      var weight := if Counted(prims, v, p)
                    then Saturated(U64_MAX, c.signedWeight + v.weights[p.id]) else c.signedWeight;
      s.(readers := s.readers[t := c.(next := c.next + 1, signedWeight := weight)])
    case FinishCheck(t) =>
      var c := s.readers[t];
      var total := Current(s).total;
      var rate := if total > 0 then c.signedWeight as real / total as real else 0.0;
      s.(readers := s.readers - {t}, verdicts := s.verdicts + [Verdict(c.precommits, rate, c.begun, |s.installed| - 1)])
    case TakeWriteLock(t) => s.(writer := Some(t))
    case Install(_, built) =>
      match built
      case None => s.(writer := None)
      case Some(v) => s.(writer := None, installed := s.installed + [v])
  }

  ghost predicate Initial(s: State) {
    |s.installed| == 1 && s.readers == map[] && s.writer.None? && s.verdicts == []
  }

  /** The state a sequence of steps leads to, if every step is enabled where it is taken. */
  function After(prims: Primitives, s0: State, steps: seq<Step>): Option<State> {
    if steps == [] then Some(s0) else
      var before, last := After(prims, s0, steps[..|steps| - 1]), steps[|steps| - 1];
      if before.Some? && before.value.installed != [] && Enabled(before.value, last)
      then Some(Take(prims, before.value, last))
      else None
  }

  predicate IsRun(prims: Primitives, s0: State, steps: seq<Step>, s: State) {
    After(prims, s0, steps) == Some(s)
  }

  // ----- Invariant

  ghost predicate CheckOnTrack(prims: Primitives, s: State, c: Check) {
    && s.installed != []
    && c.begun == |s.installed| - 1
    && c.next <= |c.precommits|
    && c.signedWeight == SignedWeight(prims, Current(s), c.precommits[..c.next])
  }

  /** The rate of a finished check is that of the one set current from its beginning to its end. */
  ghost predicate FromOneSet(prims: Primitives, s: State, d: Verdict) {
    d.begun == d.ended < |s.installed| && d.rate == Rate(prims, s.installed[d.begun], d.precommits)
  }

  ghost predicate Inv(prims: Primitives, s: State) {
    && s.installed != []
    && (s.writer.Some? ==> s.readers == map[])
    && (forall t <- s.readers :: CheckOnTrack(prims, s, s.readers[t]))
    && (forall d <- s.verdicts :: FromOneSet(prims, s, d))
  }

  lemma CountingStaysOnTrack(prims: Primitives, s: State, t: Thread)
    requires Inv(prims, s) && Enabled(s, CountOne(t))
    ensures CheckOnTrack(prims, s, Take(prims, s, CountOne(t)).readers[t])
  {
    var c := s.readers[t];
    assert c.precommits[..c.next + 1][..c.next] == c.precommits[..c.next];
  }

  lemma FinishingMeasuresOneSet(prims: Primitives, s: State, t: Thread)
    requires Inv(prims, s) && Enabled(s, FinishCheck(t))
    ensures var s' := Take(prims, s, FinishCheck(t)); FromOneSet(prims, s', s'.verdicts[|s.verdicts|])
  {
    var c := s.readers[t];
    assert CheckOnTrack(prims, s, c);
    assert c.precommits[..c.next] == c.precommits;
  }

  lemma StepKeepsInv(prims: Primitives, s: State, step: Step)
    requires Inv(prims, s) && Enabled(s, step)
    ensures Inv(prims, Take(prims, s, step))
  {
    var s' := Take(prims, s, step);
    match step
    case BeginCheck(t, ps) =>
      assert ps[..0] == [];
    case CountOne(t) =>
      CountingStaysOnTrack(prims, s, t);
    case FinishCheck(t) =>
      FinishingMeasuresOneSet(prims, s, t);
      forall d | d in s'.verdicts ensures FromOneSet(prims, s', d) {
        if d in s.verdicts { assert FromOneSet(prims, s, d); }
      }
    case TakeWriteLock(t) =>
    case Install(t, built) =>
      forall d | d in s'.verdicts ensures FromOneSet(prims, s', d) {
        assert FromOneSet(prims, s, d);
      }
  }

  lemma {:induction false} InvIsKept(prims: Primitives, s0: State, steps: seq<Step>, s: State)
    requires Inv(prims, s0) && IsRun(prims, s0, steps, s)
    ensures Inv(prims, s)
    decreases |steps|
  {
    if steps != [] {
      var mid := After(prims, s0, steps[..|steps| - 1]).value;
      InvIsKept(prims, s0, steps[..|steps| - 1], mid);
      StepKeepsInv(prims, mid, steps[|steps| - 1]);
    }
  }

  lemma RunKeepsInv(prims: Primitives, s0: State, steps: seq<Step>, s: State)
    requires Initial(s0) && IsRun(prims, s0, steps, s)
    ensures Inv(prims, s)
  {
    InvIsKept(prims, s0, steps, s);
  }

  /**
   In every run of any number of threads each finished check measured one voter set, the one installed
   throughout the check, weights and total alike; and that set has voting power.
   */
  lemma EveryRateFromOneSet(prims: Primitives, s0: State, steps: seq<Step>, s: State, d: Verdict)
    requires Initial(s0) && IsRun(prims, s0, steps, s) && d in s.verdicts
    ensures d.begun == d.ended < |s.installed|
    ensures d.rate == Rate(prims, s.installed[d.begun], d.precommits)
    ensures s.installed[d.begun].total > 0
  {
    RunKeepsInv(prims, s0, steps, s);
    assert FromOneSet(prims, s, d);
    TotalPositive(s.installed[d.begun]);
  }

  /**
   In every reachable state the current set has voting power, and a step changes it only by a successful
   construction, taken while no check runs.
   */
  lemma SetChangesOnlyByInstall(prims: Primitives, s0: State, steps: seq<Step>, s: State, step: Step)
    requires Initial(s0) && IsRun(prims, s0, steps, s)
    ensures s.installed != [] && Current(s).total > 0
    ensures Enabled(s, step) ==>
              var s' := Take(prims, s, step);
              if step.Install? && step.built.Some?
              then s.readers == map[] && s'.installed == s.installed + [step.built.value]
              else s'.installed == s.installed
  {
    RunKeepsInv(prims, s0, steps, s);
    TotalPositive(Current(s));
  }

  // ----- Progress

  /** The steps of one check through its first `n` precommits. */
  function CheckSteps(t: Thread, ps: seq<SignedPrecommit>, n: nat): seq<Step> {
    if n == 0 then [BeginCheck(t, ps)] else CheckSteps(t, ps, n - 1) + [CountOne(t)]
  }

  /** The state differs from `s0` only by the thread's own check, which has counted `n` precommits. */
  ghost predicate Counting(s0: State, t: Thread, ps: seq<SignedPrecommit>, n: nat, s: State) {
    && t in s.readers && s.readers[t].precommits == ps && s.readers[t].next == n
    && s == s0.(readers := s0.readers[t := s.readers[t]])
  }

  lemma {:induction false} CountingRuns(prims: Primitives, s0: State, t: Thread, ps: seq<SignedPrecommit>, n: nat)
    returns (s: State)
    requires s0.installed != [] && Enabled(s0, BeginCheck(t, ps)) && n <= |ps|
    ensures IsRun(prims, s0, CheckSteps(t, ps, n), s) && Counting(s0, t, ps, n, s)
  {
    if n == 0 {
      s := Take(prims, s0, BeginCheck(t, ps));
      OneMoreStep(prims, s0, [], s0, BeginCheck(t, ps));
      assert [] + [BeginCheck(t, ps)] == CheckSteps(t, ps, 0);
    } else {
      var mid := CountingRuns(prims, s0, t, ps, n - 1);
      s := Take(prims, mid, CountOne(t));
      OneMoreStep(prims, s0, CheckSteps(t, ps, n - 1), mid, CountOne(t));
    }
  }

  /** Finishing leaves the other checks and adds the verdict of the current set. */
  lemma CountingEnds(prims: Primitives, s0: State, t: Thread, ps: seq<SignedPrecommit>, mid: State)
    requires Counting(s0, t, ps, |ps|, mid) && Inv(prims, mid) && t !in s0.readers
    ensures AddsVerdict(prims, s0, ps, Take(prims, mid, FinishCheck(t)))
  {
    FinishingMeasuresOneSet(prims, mid, t);
    var s := Take(prims, mid, FinishCheck(t));
    assert s.readers == s0.readers;
    var d := s.verdicts[|s0.verdicts|];
    assert s.verdicts == s0.verdicts + [Verdict(ps, Rate(prims, Current(s0), ps), d.begun, d.ended)];
  }

  /** Nothing but one verdict more, whose rate is that of the precommits in the set current in `s0`. */
  ghost predicate AddsVerdict(prims: Primitives, s0: State, ps: seq<SignedPrecommit>, s: State) {
    && s0.installed != []
    && s.installed == s0.installed && s.readers == s0.readers && s.writer == s0.writer
    && exists begun, ended ::
         s.verdicts == s0.verdicts + [Verdict(ps, Rate(prims, Current(s0), ps), begun, ended)]
  }

  /**
   Checks do not wait for each other: whenever no update holds the lock, a new thread can check any precommits from
   beginning to end, whatever other checks are under way, and its verdict measures the current set.
   */
  lemma CheckCanFinish(prims: Primitives, s0: State, t: Thread, ps: seq<SignedPrecommit>)
    returns (steps: seq<Step>, s: State)
    requires Inv(prims, s0) && s0.writer.None? && t !in s0.readers
    ensures IsRun(prims, s0, steps, s) && AddsVerdict(prims, s0, ps, s)
  {
    var mid := CountingRuns(prims, s0, t, ps, |ps|);
    InvIsKept(prims, s0, CheckSteps(t, ps, |ps|), mid);
    CountingEnds(prims, s0, t, ps, mid);
    OneMoreStep(prims, s0, CheckSteps(t, ps, |ps|), mid, FinishCheck(t));
    steps, s := CheckSteps(t, ps, |ps|) + [FinishCheck(t)], Take(prims, mid, FinishCheck(t));
  }

  /** Once no check runs an update can take the lock, and it installs the set it built, if any. */
  lemma UpdateCanFinish(prims: Primitives, s0: State, t: Thread, built: Option<VoterSet>)
    returns (steps: seq<Step>, s: State)
    requires s0.installed != [] && s0.writer.None? && s0.readers == map[]
    ensures IsRun(prims, s0, steps, s)
    ensures s == s0.(installed := s0.installed + if built.Some? then [built.value] else [])
  {
    var take, install := TakeWriteLock(t), Install(t, built);
    OneMoreStep(prims, s0, [], s0, take);
    var mid := Take(prims, s0, take);
    OneMoreStep(prims, s0, [] + [take], mid, install);
    steps := [] + [take] + [install];
    s := Take(prims, mid, install);
  }

  lemma OneMoreStep(prims: Primitives, s0: State, steps: seq<Step>, mid: State, step: Step)
    requires IsRun(prims, s0, steps, mid) && mid.installed != [] && Enabled(mid, step)
    ensures IsRun(prims, s0, steps + [step], Take(prims, mid, step))
  {
    assert (steps + [step])[..|steps|] == steps;
  }
}
