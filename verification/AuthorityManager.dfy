/**
 The authority set manager (src/finality/mod.rs, AuthoritySetManager): a queue of scheduled changes that
 are activated, head first, as finality reaches their heights.
 */
module AuthorityManager {
  import opened Common
  import opened Voters

  type AuthorityList = seq<(AuthorityId, U64)>

  datatype AuthoritySet = AuthoritySet(authorities: AuthorityList, setId: U64)

  datatype Change = Change(setId: U64, authorities: AuthorityList, scheduledAt: nat)

  datatype State = State(current: AuthoritySet, pending: seq<Change>, lastFinalized: nat)

  /** The 64-bit increment, which wraps. */
  function NextId(id: U64): U64 {
    if id == U64_MAX then 0 else id + 1
  }

  /** The length of the longest prefix of the queue that is due at `number`. */
  function DueCount(pending: seq<Change>, number: nat): (k: nat)
    ensures k <= |pending|
    ensures forall i :: 0 <= i < k ==> pending[i].scheduledAt <= number
    ensures k < |pending| ==> pending[k].scheduledAt > number
  {
    if pending != [] && pending[0].scheduledAt <= number then 1 + DueCount(pending[1..], number) else 0
  }

  function ActiveAfter(current: AuthoritySet, applied: seq<Change>): AuthoritySet {
    if applied == [] then current
    else AuthoritySet(applied[|applied| - 1].authorities, applied[|applied| - 1].setId)
  }

  function NewChange(s: State, authorities: AuthorityList, at: nat): Change {
    Change(NextId(s.current.setId), authorities, at)
  }

  function Scheduled(s: State, authorities: AuthorityList, at: nat): State {
    s.(pending := s.pending + [NewChange(s, authorities, at)])
  }

  /** Finalizing a block applies exactly the longest due prefix. */
  function Finalized(s: State, number: nat): State {
    var k := DueCount(s.pending, number);
    State(ActiveAfter(s.current, s.pending[..k]), s.pending[k..], number)
  }

  class AuthoritySetManager {
    var currentSet: AuthoritySet
    var pendingChanges: seq<Change>
    var lastFinalized: nat

    ghost function Abstract(): State
      reads this
    {
      State(currentSet, pendingChanges, lastFinalized)
    }

    constructor (initial: AuthoritySet)
      ensures Abstract() == State(initial, [], 0)
    {
      currentSet, pendingChanges, lastFinalized := initial, [], 0;
    }

    method ScheduleChange(newAuthorities: AuthorityList, scheduledAt: nat)
      modifies this`pendingChanges
      ensures Abstract() == Scheduled(old(Abstract()), newAuthorities, scheduledAt)
      ensures var id: U64 := if currentSet.setId == 0xFFFF_FFFF_FFFF_FFFF then 0 else currentSet.setId + 1;
              pendingChanges == old(pendingChanges) + [Change(id, newAuthorities, scheduledAt)]
    {
      pendingChanges := pendingChanges + [Change(NextId(currentSet.setId), newAuthorities, scheduledAt)];
    }

    method ProcessFinalizedBlock(number: nat)
      modifies this
      ensures Abstract() == Finalized(old(Abstract()), number)
      ensures lastFinalized == number
      ensures var queue := old(pendingChanges);
              var k := DueCount(queue, number);
              && pendingChanges == queue[k..]
              && currentSet == if k == 0 then old(currentSet)
                               else AuthoritySet(queue[k - 1].authorities, queue[k - 1].setId)
    {
      lastFinalized := number;
      while pendingChanges != []
        invariant lastFinalized == number
        invariant Finalized(Abstract(), number) == Finalized(old(Abstract()), number)
        decreases |pendingChanges|
      {
        var change := pendingChanges[0];
        if change.scheduledAt > number {
          break;
        }
        ghost var before := Abstract();
        pendingChanges := pendingChanges[1..];
        ApplyChange(change);
        ApplyingHead(before, number);
      }
    }

    method ApplyChange(change: Change)
      modifies this`currentSet
      ensures currentSet == AuthoritySet(change.authorities, change.setId)
    {
      currentSet := AuthoritySet(change.authorities, change.setId);
    }
  }

  /** Applying a due head first and finalizing then is finalizing at once. */
  lemma ApplyingHead(s: State, number: nat)
    requires s.pending != [] && s.pending[0].scheduledAt <= number
    ensures var applied := State(ActiveAfter(s.current, [s.pending[0]]), s.pending[1..], number);
            Finalized(applied, number) == Finalized(s, number)
  {
    var k := DueCount(s.pending, number);
    assert s.pending[1..][..k - 1] == s.pending[1..k];
    assert s.pending[1..][k - 1..] == s.pending[k..];
  }

  // ----- Runs

  datatype Op = Schedule(authorities: AuthorityList, at: nat) | Finalize(number: nat)

  function Perform(s: State, op: Op): State {
    match op
    case Schedule(authorities, at) => Scheduled(s, authorities, at)
    case Finalize(number) => Finalized(s, number)
  }

  function Run(s: State, ops: seq<Op>): State {
    if ops == [] then s else Perform(Run(s, ops[..|ops| - 1]), ops[|ops| - 1])
  }

  /** Everything scheduled during a run, in order. */
  function ScheduledIn(s: State, ops: seq<Op>): seq<Change> {
    if ops == [] then [] else
      var init, last := ops[..|ops| - 1], ops[|ops| - 1];
      ScheduledIn(s, init) + (if last.Schedule? then [NewChange(Run(s, init), last.authorities, last.at)] else [])
  }

  /** Everything applied during a run, in order. */
  function AppliedIn(s: State, ops: seq<Op>): seq<Change> {
    if ops == [] then [] else
      var init, last := ops[..|ops| - 1], ops[|ops| - 1];
      var pending := Run(s, init).pending;
      AppliedIn(s, init) + (if last.Finalize? then pending[..DueCount(pending, last.number)] else [])
  }

  /**
   Conservation: nothing is lost, duplicated or reordered.  What was applied followed by what is pending is
   what was pending at first followed by what was scheduled, and the current set is the last one applied.
   */
  lemma {:induction false} Conservation(s: State, ops: seq<Op>)
    ensures AppliedIn(s, ops) + Run(s, ops).pending == s.pending + ScheduledIn(s, ops)
    ensures Run(s, ops).current == ActiveAfter(s.current, AppliedIn(s, ops))
    decreases |ops|
  {
    if ops == [] {
      assert [] + s.pending == s.pending == s.pending + [];
    } else {
      var init, last := ops[..|ops| - 1], ops[|ops| - 1];
      Conservation(s, init);
      var applied, all, st := AppliedIn(s, init), ScheduledIn(s, init), Run(s, init);
      match last
      case Schedule(authorities, at) =>
        var c := NewChange(st, authorities, at);
        AppendBoth(applied, st.pending, s.pending, all, c);
        assert AppliedIn(s, ops) == applied && ScheduledIn(s, ops) == all + [c];
      case Finalize(number) =>
        var k := DueCount(st.pending, number);
        assert AppliedIn(s, ops) == applied + st.pending[..k] && ScheduledIn(s, ops) == all;
        MoveAcross(applied, st.pending, k);
        ActiveAfterBoth(s.current, applied, st.pending[..k]);
    }
  }

  lemma AppendBoth<T>(a: seq<T>, b: seq<T>, c: seq<T>, d: seq<T>, x: T)
    requires a + b == c + d
    ensures a + (b + [x]) == c + (d + [x])
  {
    assert a + (b + [x]) == (a + b) + [x] == (c + d) + [x] == c + (d + [x]);
  }

  lemma MoveAcross<T>(a: seq<T>, b: seq<T>, k: nat)
    requires k <= |b|
    ensures (a + b[..k]) + b[k..] == a + b
  {
  }

  lemma ActiveAfterBoth(current: AuthoritySet, a: seq<Change>, b: seq<Change>)
    ensures ActiveAfter(ActiveAfter(current, a), b) == ActiveAfter(current, a + b)
  {
    if b == [] { assert a + b == a; }
  }

  // ----- Batches

  function AllFinalize(numbers: seq<nat>): seq<Op> {
    if numbers == [] then [] else AllFinalize(numbers[..|numbers| - 1]) + [Finalize(numbers[|numbers| - 1])]
  }

  function Highest(numbers: seq<nat>): nat {
    if numbers == [] then 0 else Higher(Highest(numbers[..|numbers| - 1]), numbers[|numbers| - 1])
  }

  lemma DueCountUnique(pending: seq<Change>, number: nat, k: nat)
    requires k <= |pending|
    requires forall i :: 0 <= i < k ==> pending[i].scheduledAt <= number
    requires k < |pending| ==> pending[k].scheduledAt > number
    ensures DueCount(pending, number) == k
  {
  }

  function Higher(m: nat, n: nat): nat {
    if m <= n then n else m
  }

  lemma {:induction false} DueInTwoSteps(pending: seq<Change>, m: nat, n: nat)
    ensures DueCount(pending, m) + DueCount(pending[DueCount(pending, m)..], n) == DueCount(pending, Higher(m, n))
  {
    var a := DueCount(pending, m);
    if a == 0 {
      assert pending[a..] == pending;
    } else {
      DueInTwoSteps(pending[1..], m, n);
      assert pending[a..] == pending[1..][a - 1..];
    }
  }

  /** Two finalizations in any order amount to the higher one. */
  lemma TwoAreOne(s: State, m: nat, n: nat)
    ensures var both, one := Finalized(Finalized(s, m), n), Finalized(s, Higher(m, n));
            both.current == one.current && both.pending == one.pending
  {
    var a := DueCount(s.pending, m);
    DueInTwoSteps(s.pending, m, n);
    TakenTwice(s.current, s.pending, a, DueCount(s.pending[a..], n), DueCount(s.pending, Higher(m, n)));
  }

  lemma TakenTwice(current: AuthoritySet, pending: seq<Change>, a: nat, b: nat, both: nat)
    requires a + b == both <= |pending|
    ensures ActiveAfter(ActiveAfter(current, pending[..a]), pending[a..][..b]) == ActiveAfter(current, pending[..both])
    ensures pending[a..][b..] == pending[both..]
  {
    SliceTwice(pending, a, b);
    ActiveAfterBoth(current, pending[..a], pending[a..][..b]);
  }

  lemma SliceTwice<T>(xs: seq<T>, a: nat, b: nat)
    requires a + b <= |xs|
    ensures xs[..a + b] == xs[..a] + xs[a..][..b]
    ensures xs[a + b..] == xs[a..][b..]
  {
  }

  /**
   Batch independence: finalizing any non-empty sequence of numbers, in any order and with repeats, leaves
   the current set and the queue that one finalization of the highest number leaves.
   */
  lemma {:induction false} BatchIndependence(s: State, numbers: seq<nat>)
    requires numbers != []
    ensures var many, one := Run(s, AllFinalize(numbers)), Finalized(s, Highest(numbers));
            many.current == one.current && many.pending == one.pending
    decreases |numbers|
  {
    var init, last := numbers[..|numbers| - 1], numbers[|numbers| - 1];
    var ops := AllFinalize(numbers);
    assert ops[..|ops| - 1] == AllFinalize(init);
    if init == [] {
      assert Run(s, AllFinalize(init)) == s;
    } else {
      BatchIndependence(s, init);
      TwoAreOne(s, Highest(init), last);
    }
  }

  // ----- Set ids

  /** The pending ids are a block of the current id followed by a block of the next one, split at `m`. */
  ghost predicate IdBlocks(s: State, m: nat) {
    && m <= |s.pending|
    && (forall i :: 0 <= i < m ==> s.pending[i].setId == s.current.setId)
    && (forall i :: m <= i < |s.pending| ==> s.pending[i].setId == NextId(s.current.setId))
  }

  lemma {:induction false} IdBlocksReachable(s: State, ops: seq<Op>) returns (m: nat)
    requires s.pending == []
    ensures IdBlocks(Run(s, ops), m)
    decreases |ops|
  {
    if ops == [] {
      m := 0;
    } else {
      var init, last := ops[..|ops| - 1], ops[|ops| - 1];
      m := IdBlocksReachable(s, init);
      if last.Finalize? {
        m := IdAfterFinalize(Run(s, init), last.number, m);
      }
    }
  }

  /**
   One finalization applies any number of changes but moves the set id by at most one: it moves exactly
   when the applied prefix reaches past the first block.
   */
  lemma IdAfterFinalize(s: State, number: nat, m: nat) returns (m': nat)
    requires IdBlocks(s, m)
    ensures IdBlocks(Finalized(s, number), m')
    ensures var k := DueCount(s.pending, number); m' == if k > m then |s.pending| - k else m - k
    ensures Finalized(s, number).current.setId ==
            if DueCount(s.pending, number) > m then NextId(s.current.setId) else s.current.setId
  {
    var k := DueCount(s.pending, number);
    var s' := Finalized(s, number);
    assert forall i :: 0 <= i < |s'.pending| ==> s'.pending[i] == s.pending[k + i];
    if k > 0 {
      assert s.pending[..k][k - 1] == s.pending[k - 1];
    }
    m' := if k > m then |s'.pending| else m - k;
  }

  lemma IdStep(s: State, number: nat, m: nat)
    requires IdBlocks(s, m) && s.current.setId + DueCount(s.pending, number) <= U64_MAX
    ensures s.current.setId <= Finalized(s, number).current.setId <= s.current.setId + DueCount(s.pending, number)
  {
    var m' := IdAfterFinalize(s, number, m);
  }

  /** As long as the 64-bit ids last, the id never falls and rises by at most one per applied change. */
  lemma {:induction false} IdBounds(s: State, ops: seq<Op>)
    requires s.pending == [] && s.current.setId + |AppliedIn(s, ops)| <= U64_MAX
    ensures s.current.setId <= Run(s, ops).current.setId <= s.current.setId + |AppliedIn(s, ops)|
    ensures ops != [] ==> Run(s, ops[..|ops| - 1]).current.setId <= Run(s, ops).current.setId
    decreases |ops|
  {
    if ops != [] {
      var init, last := ops[..|ops| - 1], ops[|ops| - 1];
      var before := Run(s, init);
      var applied := if last.Finalize? then DueCount(before.pending, last.number) else 0;
      assert |AppliedIn(s, ops)| == |AppliedIn(s, init)| + applied;
      IdBounds(s, init);
      if last.Finalize? {
        var m := IdBlocksReachable(s, init);
        IdStep(before, last.number, m);
      }
    }
  }

  /** Changes are scheduled one at a time: only when nothing is pending. */
  ghost predicate OneAtATime(s: State, ops: seq<Op>) {
    if ops == [] then true else
      var init, last := ops[..|ops| - 1], ops[|ops| - 1];
      OneAtATime(s, init) && (last.Schedule? ==> Run(s, init).pending == [])
  }

  function NthId(id: U64, n: nat): U64 {
    if n == 0 then id else NextId(NthId(id, n - 1))
  }

  lemma {:induction false} NthIdIsSum(id: U64, n: nat)
    ensures NthId(id, n) == (id + n) % (U64_MAX + 1)
  {
    if n > 0 {
      NthIdIsSum(id, n - 1);
      NextRemainder(id + n - 1);
    }
  }

  lemma NextRemainder(x: nat)
    ensures (x + 1) % (U64_MAX + 1) == if x % (U64_MAX + 1) == U64_MAX then 0 else x % (U64_MAX + 1) + 1
  {
  }

  ghost predicate AtMostTheNext(s: State) {
    s.pending == [] || (|s.pending| == 1 && s.pending[0].setId == NextId(s.current.setId))
  }

  lemma FinalizeAtMostTheNext(s: State, number: nat)
    requires AtMostTheNext(s)
    ensures AtMostTheNext(Finalized(s, number))
    ensures Finalized(s, number).current.setId == NthId(s.current.setId, DueCount(s.pending, number))
  {
    var k := DueCount(s.pending, number);
    assert NthId(s.current.setId, 1) == NextId(NthId(s.current.setId, 0));
    if k > 0 {
      assert s.pending[..k] == s.pending && s.pending[k..] == [];
    } else {
      assert s.pending[k..] == s.pending;
    }
  }

  lemma {:induction false} NthIdTwice(id: U64, m: nat, n: nat)
    ensures NthId(NthId(id, m), n) == NthId(id, m + n)
  {
    if n > 0 { NthIdTwice(id, m, n - 1); }
  }

  /** How many changes one step applies. */
  function AppliedBy(s: State, op: Op): nat {
    match op
    case Schedule(_, _) => 0
    case Finalize(number) => DueCount(s.pending, number)
  }

  lemma CountsAfterStep(id: U64, s: State, op: Op, applied: nat)
    requires s.current.setId == NthId(id, applied) && AtMostTheNext(s) && (op.Schedule? ==> s.pending == [])
    ensures Perform(s, op).current.setId == NthId(id, applied + AppliedBy(s, op))
    ensures AtMostTheNext(Perform(s, op))
  {
    match op
    case Schedule(_, _) =>
    case Finalize(number) =>
      FinalizeAtMostTheNext(s, number);
      NthIdTwice(id, applied, DueCount(s.pending, number));
  }

  /** Then the id counts the applied changes. */
  lemma {:induction false} IdCountsChanges(s: State, ops: seq<Op>)
    requires s.pending == [] && OneAtATime(s, ops)
    ensures Run(s, ops).current.setId == NthId(s.current.setId, |AppliedIn(s, ops)|)
    ensures AtMostTheNext(Run(s, ops))
    decreases |ops|
  {
    if ops != [] {
      var init, last := ops[..|ops| - 1], ops[|ops| - 1];
      IdCountsChanges(s, init);
      CountsAfterStep(s.current.setId, Run(s, init), last, |AppliedIn(s, init)|);
      assert |AppliedIn(s, ops)| == |AppliedIn(s, init)| + AppliedBy(Run(s, init), last);
    }
  }

  /**
   How many ids a run is short of one per scheduled change, when the id has risen `rise` times and the
   second block of pending ids, if any, will raise it once more.
   */
  function Deficit(scheduled: nat, rise: nat, second: nat): int {
    scheduled - rise - (if second > 0 then 1 else 0)
  }

  /**
   The blocks of a state reached with `rise` increments, and the deficit they imply: zero exactly for a
   disciplined run.
   */
  ghost predicate IdLedger(id: U64, s: State, scheduled: nat, disciplined: bool, m: nat, rise: nat) {
    && IdBlocks(s, m)
    && s.current.setId == NthId(id, rise)
    && (var second := |s.pending| - m;
        && Deficit(scheduled, rise, second) >= m + (if second > 0 then second - 1 else 0)
        && (Deficit(scheduled, rise, second) == 0 <==> disciplined))
  }

  lemma LedgerAfterFinalize(id: U64, s: State, number: nat, scheduled: nat, disciplined: bool, m: nat, rise: nat)
    returns (m': nat, rise': nat)
    requires IdLedger(id, s, scheduled, disciplined, m, rise)
    ensures IdLedger(id, Finalized(s, number), scheduled, disciplined, m', rise')
  {
    m' := IdAfterFinalize(s, number, m);
    rise' := if DueCount(s.pending, number) > m then rise + 1 else rise;
  }

  function Announced(op: Op): nat {
    if op.Schedule? then 1 else 0
  }

  /** One step keeps the ledger; a run stays disciplined unless a change joins others pending. */
  lemma LedgerAfterStep(id: U64, s: State, op: Op, scheduled: nat, disciplined: bool, m: nat, rise: nat)
    returns (m': nat, rise': nat)
    requires IdLedger(id, s, scheduled, disciplined, m, rise)
    ensures IdLedger(id, Perform(s, op), scheduled + Announced(op), disciplined && (op.Schedule? ==>
        s.pending == []), m', rise')
  {
    match op
    case Schedule(a, at) =>
      m', rise' := m, rise;
    case Finalize(number) =>
      m', rise' := LedgerAfterFinalize(id, s, number, scheduled, disciplined, m, rise);
  }

  lemma {:induction false} LedgerReachable(s: State, ops: seq<Op>) returns (m: nat, rise: nat)
    requires s.pending == []
    ensures IdLedger(s.current.setId, Run(s, ops), |ScheduledIn(s, ops)|, OneAtATime(s, ops), m, rise)
    decreases |ops|
  {
    if ops == [] {
      m, rise := 0, 0;
    } else {
      var init, last := ops[..|ops| - 1], ops[|ops| - 1];
      m, rise := LedgerReachable(s, init);
      m, rise := LedgerAfterStep(s.current.setId, Run(s, init), last, |ScheduledIn(s, init)|, OneAtATime(s, init),
          m, rise);
      assert |ScheduledIn(s, ops)| == |ScheduledIn(s, init)| + Announced(last);
    }
  }

  lemma NthIdInjective(id: U64, m: nat, n: nat)
    requires m <= U64_MAX && n <= U64_MAX
    ensures NthId(id, m) == NthId(id, n) <==> m == n
  {
    NthIdIsSum(id, m);
    NthIdIsSum(id, n);
  }

  /**
   The id counts the changes, exactly: after any run whose changes are all applied by a last finalization, the
   id is the initial one advanced once per change if and only if changes were scheduled one at a time.
   */
  lemma IdCountsExact(s: State, ops: seq<Op>, number: nat)
    requires s.pending == [] && |ScheduledIn(s, ops)| <= U64_MAX
    requires AllDueBy(ScheduledIn(s, ops), number)
    ensures Finalized(Run(s, ops), number).pending == []
    ensures Finalized(Run(s, ops), number).current.setId == NthId(s.current.setId, |ScheduledIn(s, ops)|) <==>
            OneAtATime(s, ops)
  {
    var m, rise := LedgerReachable(s, ops);
    PendingDueBy(s, ops, number);
    LedgerWhenAllApplied(s.current.setId, Run(s, ops), number, |ScheduledIn(s, ops)|, OneAtATime(s, ops), m, rise);
  }

  lemma LedgerWhenAllApplied(id: U64, s: State, number: nat, scheduled: nat, disciplined: bool, m: nat, rise: nat)
    requires IdLedger(id, s, scheduled, disciplined, m, rise) && scheduled <= U64_MAX
    requires AllDueBy(s.pending, number)
    ensures Finalized(s, number).pending == []
    ensures Finalized(s, number).current.setId == NthId(id, scheduled) <==> disciplined
  {
    DueCountUnique(s.pending, number, |s.pending|);
    var m', rise' := LedgerAfterFinalize(id, s, number, scheduled, disciplined, m, rise);
    NthIdInjective(id, rise', scheduled);
  }

  ghost predicate AllDueBy(changes: seq<Change>, number: nat) {
    forall i :: 0 <= i < |changes| ==> changes[i].scheduledAt <= number
  }

  lemma PendingDueBy(s: State, ops: seq<Op>, number: nat)
    requires s.pending == [] && AllDueBy(ScheduledIn(s, ops), number)
    ensures AllDueBy(Run(s, ops).pending, number)
  {
    Conservation(s, ops);
    SplitAt(AppliedIn(s, ops), Run(s, ops).pending, ScheduledIn(s, ops));
  }

  /** Changes scheduled together share one id: both carry the next one, at whatever heights they are due. */
  lemma TogetherShareAnId(s: State, a: AuthorityList, at: nat, b: AuthorityList, at': nat, number: nat)
    requires s.pending == [] && at <= number && at' <= number
    ensures var ops := [Schedule(a, at), Schedule(b, at'), Finalize(number)];
            var id := NextId(s.current.setId);
            && AppliedIn(s, ops) == [Change(id, a, at), Change(id, b, at')]
            && Run(s, ops).current == AuthoritySet(b, id)
  {
    var one, two := [Schedule(a, at)], [Schedule(a, at), Schedule(b, at')];
    var ops := two + [Finalize(number)];
    assert ops == [Schedule(a, at), Schedule(b, at'), Finalize(number)] && ops[..2] == two;
    var pending := TwoPending(s, a, at, b, at');
    DueCountUnique(pending, number, 2);
    assert pending[..2] == pending;
  }

  lemma TwoPending(s: State, a: AuthorityList, at: nat, b: AuthorityList, at': nat) returns (pending: seq<Change>)
    requires s.pending == []
    ensures pending == [NewChange(s, a, at), NewChange(s, b, at')]
    ensures var two := [Schedule(a, at), Schedule(b, at')];
            Run(s, two) == s.(pending := pending) && ScheduledIn(s, two) == pending && AppliedIn(s, two) == []
  {
    var none: seq<Op>, one, two := [], [Schedule(a, at)], [Schedule(a, at), Schedule(b, at')];
    assert one[..0] == none && two[..1] == one;
    assert Run(s, one) == s.(pending := [NewChange(s, a, at)]);
    assert ScheduledIn(s, one) == [NewChange(s, a, at)] && AppliedIn(s, one) == [];
    pending := [NewChange(s, a, at), NewChange(s, b, at')];
  }

  // ----- The stateless view

  /** How many changes precede and include the last one whose height is reached. */
  function LookupCount(changes: seq<Change>, number: nat): (k: nat)
    ensures k <= |changes|
    ensures k > 0 ==> changes[k - 1].scheduledAt <= number
    ensures forall i :: k <= i < |changes| ==> changes[i].scheduledAt > number
  {
    if changes == [] then 0
    else if changes[|changes| - 1].scheduledAt <= number then |changes|
    else LookupCount(changes[..|changes| - 1], number)
  }

  ghost predicate Ascending(changes: seq<Change>) {
    forall i, j :: 0 <= i <= j < |changes| ==> changes[i].scheduledAt <= changes[j].scheduledAt
  }

  /**
   The queue agrees with the stateless lookup at every height if and only if its heights ascend: an
   earlier change at a greater height blocks the ones behind it.
   */
  lemma LookupExact(pending: seq<Change>)
    ensures (forall number: nat :: DueCount(pending, number) == LookupCount(pending, number)) <==> Ascending(pending)
  {
    if Ascending(pending) {
      forall number: nat ensures DueCount(pending, number) == LookupCount(pending, number) {
        AscendingLookup(pending, number);
      }
    } else {
      var i, j :| 0 <= i <= j < |pending| && pending[i].scheduledAt > pending[j].scheduledAt;
      var number := pending[j].scheduledAt;
      assert DueCount(pending, number) <= i;
      assert LookupCount(pending, number) > j;
    }
  }

  lemma AscendingLookup(changes: seq<Change>, number: nat)
    requires Ascending(changes)
    ensures DueCount(changes, number) == LookupCount(changes, number)
  {
    var k := LookupCount(changes, number);
    DueCountUnique(changes, number, k);
  }

  /** The highest number finalized in a run, 0 at its start. */
  function Reached(ops: seq<Op>): nat {
    if ops == [] then 0 else
      var rest, last := Reached(ops[..|ops| - 1]), ops[|ops| - 1];
      if last.Finalize? then Higher(rest, last.number) else rest
  }

  /** Changes are announced in height order and for heights not finalized yet. */
  ghost predicate WellTimed(s: State, ops: seq<Op>) {
    if ops == [] then true else
      var init, last := ops[..|ops| - 1], ops[|ops| - 1];
      && WellTimed(s, init)
      && (last.Schedule? ==> last.at > Reached(init) && forall c <- ScheduledIn(s, init) :: c.scheduledAt <= last.at)
  }

  /**
   The manager refines the stateless lookup: after any well-timed run of schedulings and finalizations, the
   latter in any order, the current set is that of the last change whose height the highest finalized
   number reaches, and exactly the changes above it are pending.
   */
  lemma RefinesLookup(s: State, ops: seq<Op>)
    requires s.pending == [] && WellTimed(s, ops)
    ensures var all := ScheduledIn(s, ops);
            var k := LookupCount(all, Reached(ops));
            && Run(s, ops).current == (if k == 0 then s.current
                                       else AuthoritySet(all[k - 1].authorities, all[k - 1].setId))
            && Run(s, ops).pending == all[k..]
  {
    AppliedIsLookup(s, ops);
    Conservation(s, ops);
    SplitAt(AppliedIn(s, ops), Run(s, ops).pending, ScheduledIn(s, ops));
  }

  lemma SplitAt<T>(a: seq<T>, b: seq<T>, all: seq<T>)
    requires a + b == [] + all
    ensures all[..|a|] == a && all[|a|..] == b
  {
    assert all == a + b;
  }

  lemma {:induction false} AppliedIsLookup(s: State, ops: seq<Op>)
    requires s.pending == [] && WellTimed(s, ops)
    ensures Ascending(ScheduledIn(s, ops))
    ensures |AppliedIn(s, ops)| == LookupCount(ScheduledIn(s, ops), Reached(ops))
    decreases |ops|
  {
    if ops != [] {
      var init, last := ops[..|ops| - 1], ops[|ops| - 1];
      AppliedIsLookup(s, init);
      Conservation(s, init);
      var all, done, pending := ScheduledIn(s, init), AppliedIn(s, init), Run(s, init).pending;
      match last
      case Finalize(number) =>
        SplitAt(done, pending, all);
        QueueLookup(all, |done|, Reached(init), number);
        assert ScheduledIn(s, ops) == all;
        assert |AppliedIn(s, ops)| == |done| + DueCount(pending, number);
      case Schedule(authorities, at) =>
        LookupOfLater(all, NewChange(Run(s, init), authorities, at), Reached(init));
        assert AppliedIn(s, ops) == done;
    }
  }

  lemma LookupOfLater(all: seq<Change>, c: Change, number: nat)
    requires Ascending(all) && c.scheduledAt > number && forall b <- all :: b.scheduledAt <= c.scheduledAt
    ensures Ascending(all + [c]) && LookupCount(all + [c], number) == LookupCount(all, number)
  {
    assert (all + [c])[..|all|] == all;
  }

  /** Finalizing from an agreeing queue agrees with the lookup at the higher of the two numbers. */
  lemma QueueLookup(all: seq<Change>, done: nat, reached: nat, number: nat)
    requires Ascending(all) && done == LookupCount(all, reached)
    ensures done + DueCount(all[done..], number) == LookupCount(all, Higher(reached, number))
  {
    AscendingLookup(all, reached);
    AscendingLookup(all, Higher(reached, number));
    DueInTwoSteps(all, reached, number);
  }

  /**
   The timing conditions are exact.  Scheduling on an agreeing queue keeps it agreeing, now and after any
   finalization to come, if and only if the change is for a height above the highest finalized number and
   not below any pending one.
   */
  lemma SchedulingExact(all: seq<Change>, done: nat, reached: nat, c: Change)
    requires Ascending(all) && done == LookupCount(all, reached)
    ensures done == LookupCount(all + [c], reached) && QueueAgrees(all + [c], done, reached) <==>
            c.scheduledAt > reached && forall b <- all[done..] :: b.scheduledAt <= c.scheduledAt
  {
    if c.scheduledAt <= reached {
      assert LookupCount(all + [c], reached) == |all| + 1;
    } else if b :| b in all[done..] && b.scheduledAt > c.scheduledAt {
      OvertakenDisagrees(all, done, reached, c, b);
    } else {
      TimelyAgrees(all, done, reached, c);
    }
  }

  lemma OvertakenDisagrees(all: seq<Change>, done: nat, reached: nat, c: Change, b: Change)
    requires done <= |all| && c.scheduledAt > reached
    requires b in all[done..] && b.scheduledAt > c.scheduledAt
    ensures !Agrees(all + [c], done, reached, c.scheduledAt)
  {
    var queue := (all + [c])[done..];
    var i :| 0 <= i < |all[done..]| && all[done..][i] == b;
    assert queue[i] == b;
    assert DueCount(queue, c.scheduledAt) <= i;
  }

  lemma TimelyAgrees(all: seq<Change>, done: nat, reached: nat, c: Change)
    requires Ascending(all) && done == LookupCount(all, reached)
    requires c.scheduledAt > reached && forall b <- all[done..] :: b.scheduledAt <= c.scheduledAt
    ensures done == LookupCount(all + [c], reached) && QueueAgrees(all + [c], done, reached)
  {
    NoneAbove(all, done, reached, c);
    LookupOfLater(all, c, reached);
    forall number: nat ensures Agrees(all + [c], done, reached, number) {
      QueueLookup(all + [c], done, reached, number);
    }
  }

  /** What finalizing `number` applies from the queue matches the lookup at the higher number. */
  ghost predicate Agrees(all: seq<Change>, done: nat, reached: nat, number: nat)
    requires done <= |all|
  {
    done + DueCount(all[done..], number) == LookupCount(all, Higher(reached, number))
  }

  ghost predicate QueueAgrees(all: seq<Change>, done: nat, reached: nat)
    requires done <= |all|
  {
    forall number: nat :: Agrees(all, done, reached, number)
  }

  lemma NoneAbove(all: seq<Change>, done: nat, reached: nat, c: Change)
    requires Ascending(all) && done == LookupCount(all, reached)
    requires c.scheduledAt > reached && forall b <- all[done..] :: b.scheduledAt <= c.scheduledAt
    ensures forall b <- all :: b.scheduledAt <= c.scheduledAt
  {
    AscendingLookup(all, reached);
    forall i | 0 <= i < |all| ensures all[i].scheduledAt <= c.scheduledAt {
      if i >= done { assert all[i] == all[done..][i - done]; }
    }
  }

  /** After the run, and after any finalization that might follow it, the manager agrees with the lookup. */
  ghost predicate AgreesHere(s: State, ops: seq<Op>)
    requires s.pending == []
  {
    var all, done := ScheduledIn(s, ops), |AppliedIn(s, ops)|;
    done <= |all| && done == LookupCount(all, Reached(ops)) && QueueAgrees(all, done, Reached(ops))
  }

  /** It does so at every point of the run. */
  ghost predicate AgreesThroughout(s: State, ops: seq<Op>)
    requires s.pending == []
  {
    AgreesHere(s, ops) && (ops != [] ==> AgreesThroughout(s, ops[..|ops| - 1]))
  }

  /**
   Over whole runs: the manager agrees with the stateless lookup at every point, now and after any
   finalization to come, if and only if the run is well timed.
   */
  lemma {:induction false} TimingExact(s: State, ops: seq<Op>)
    requires s.pending == []
    ensures AgreesThroughout(s, ops) <==> WellTimed(s, ops)
    decreases |ops|
  {
    if WellTimed(s, ops) {
      WellTimedAgrees(s, ops);
    }
    if ops != [] {
      var init, last := ops[..|ops| - 1], ops[|ops| - 1];
      TimingExact(s, init);
      if AgreesThroughout(s, ops) && last.Schedule? {
        AgreementForcesTiming(s, init, last);
      }
    }
  }

  lemma WellTimedAgrees(s: State, ops: seq<Op>)
    requires s.pending == [] && WellTimed(s, ops)
    ensures AgreesHere(s, ops)
  {
    AppliedIsLookup(s, ops);
    var all, done, reached := ScheduledIn(s, ops), |AppliedIn(s, ops)|, Reached(ops);
    forall number: nat ensures Agrees(all, done, reached, number) {
      QueueLookup(all, done, reached, number);
    }
  }

  /** A scheduling after which the manager still agrees was well timed. */
  lemma AgreementForcesTiming(s: State, init: seq<Op>, last: Op)
    requires s.pending == [] && last.Schedule? && WellTimed(s, init) && AgreesHere(s, init + [last])
    ensures WellTimed(s, init + [last])
  {
    var ops := init + [last];
    assert ops[..|ops| - 1] == init;
    AppliedIsLookup(s, init);
    var all, done := ScheduledIn(s, init), |AppliedIn(s, init)|;
    var c := NewChange(Run(s, init), last.authorities, last.at);
    assert ScheduledIn(s, ops) == all + [c] && AppliedIn(s, ops) == AppliedIn(s, init) && Reached(ops) == Reached(init);
    SchedulingExact(all, done, Reached(init), c);
    NoneAbove(all, done, Reached(init), c);
  }

  /**
   For instance a change announced for a height already finalized is missed until the
   next finalization, whatever that is.
   */
  lemma LateChangeIsMissed(s: State, a: AuthorityList, at: nat, number: nat)
    requires s.pending == [] && at <= number
    ensures var ops := [Finalize(number), Schedule(a, at)];
            && Run(s, ops).current == s.current
            && LookupCount(ScheduledIn(s, ops), Reached(ops)) == 1
  {
    var one, ops := [Finalize(number)], [Finalize(number), Schedule(a, at)];
    assert one[..0] == [] && ops[..1] == one;
    assert Run(s, one) == Finalized(s, number);
    assert Run(s, one).current == s.current && ScheduledIn(s, one) == [] && Reached(one) == number;
    var c := NewChange(Run(s, one), a, at);
    assert ScheduledIn(s, ops) == [c] && Reached(ops) == number;
  }
}
