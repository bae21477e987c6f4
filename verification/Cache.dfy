/**
 The finality cache (src/finality/mod.rs, get_finality_status_cached): a table of statuses that serves an
 entry for five seconds and drops it after thirty, over a client that only moves forward.
 */
module Cache {
  import opened Common
  import opened Voters
  import opened Chain
  import opened Finality

  /** Milliseconds. */
  const TIME_TO_LIVE: nat := 5000
  const EVICTION_AGE: nat := 30000

  datatype Entry = Entry(status: Status, stamp: nat)
  type Table = map<Hash, Entry>

  function Age(e: Entry, now: nat): nat {
    SaturatingSub(now, e.stamp)
  }

  /** The section under the read lock. */
  function Hit(t: Table, h: Hash, now: nat): Option<Status> {
    if h in t && Age(t[h], now) < TIME_TO_LIVE then Some(t[h].status) else None
  }

  /** The section under the write lock; `evicts` is false for a cache that keeps every entry. */
  function Store(t: Table, h: Hash, s: Status, stamp: nat, now: nat, evicts: bool): (r: Table)
    ensures forall k <- r :: if k == h then r[k] == Entry(s, stamp) else k in t && r[k] == t[k]
  {
    var t' := t[h := Entry(s, stamp)];
    if evicts then map k <- t' | Age(t'[k], now) < EVICTION_AGE :: t'[k] else t'
  }

  class FinalityCache {
    var entries: Table

    constructor ()
      ensures entries == map[]
    {
      entries := map[];
    }

    /** A fresh entry is served as it is; otherwise the status is computed and, unless that fails, stored. */
    method GetFinalityStatusCached(env: Env, hs: History, h: Hash, look: nat, seen: StatusReads, stampAt: nat,
                                   retainAt: nat)
      returns (r: Result<Status, ClientError>)
      requires look < |hs| && InRange(seen, |hs|) && stampAt < |hs| && retainAt < |hs|
      modifies this
      ensures match Hit(old(entries), h, hs[look].clock)
              case Some(s) => r == Ok(s) && entries == old(entries)
              case None =>
                && r == GetFinalityStatus(env, hs, h, seen)
                && entries == Apply(env, hs, old(entries), Fill(h, seen, stampAt, retainAt), true)
    {
      if h in entries {
        var entry := entries[h];
        if Age(entry, hs[look].clock) < TIME_TO_LIVE {
          return Ok(entry.status);
        }
      }
      r := GetFinalityStatus(env, hs, h, seen);
      if r.Ok? {
        entries := entries[h := Entry(r.value, hs[stampAt].clock)];
        entries := map k <- entries | Age(entries[k], hs[retainAt].clock) < EVICTION_AGE :: entries[k];
      }
    }
  }

  // ----- Runs

  /**
   The lock sections of any number of overlapping calls, in the order they take the lock.  A fill may
   store what its call computed long before.
   */
  datatype Event = Look(hash: Hash, at: nat) | Fill(hash: Hash, seen: StatusReads, stampAt: nat, retainAt: nat)

  function Begin(e: Event): nat {
    if e.Look? then e.at else e.stampAt
  }

  function End(e: Event): nat {
    if e.Look? then e.at else e.retainAt
  }

  predicate IsEvent(e: Event, n: nat) {
    match e
    case Look(_, at) => at < n
    case Fill(_, seen, stampAt, retainAt) => InOrder(seen) && seen.voters <= stampAt <= retainAt < n
  }

  function Apply(env: Env, hs: History, t: Table, e: Event, evicts: bool): Table
    requires e.Fill? ==> InRange(e.seen, |hs|) && e.stampAt < |hs| && e.retainAt < |hs|
  {
    match e
    case Look(_, _) => t
    case Fill(h, seen, stampAt, retainAt) =>
      match GetFinalityStatus(env, hs, h, seen)
      case Err(_) => t
      case Ok(s) => Store(t, h, s, hs[stampAt].clock, hs[retainAt].clock, evicts)
  }

  /** Lock sections that do not overlap, all over by `now`. */
  predicate IsRun(hs: History, es: seq<Event>, now: nat) {
    if es == [] then now < |hs|
    else
      var last := es[|es| - 1];
      IsEvent(last, |hs|) && End(last) <= now < |hs| && IsRun(hs, es[..|es| - 1], Begin(last))
  }

  function Run(env: Env, hs: History, es: seq<Event>, now: nat, evicts: bool): Table
    requires IsRun(hs, es, now)
  {
    if es == [] then map[]
    else
      var last := es[|es| - 1];
      Apply(env, hs, Run(env, hs, es[..|es| - 1], Begin(last), evicts), last, evicts)
  }

  // ----- Where answers come from

  /** The entry was computed at `seen` and stamped at `stampAt`, at most `lag` after its first read. */
  ghost predicate Computed(env: Env, hs: History, h: Hash, e: Entry, seen: StatusReads, stampAt: nat, lag: nat) {
    && InOrder(seen) && seen.voters <= stampAt < |hs|
    && GetFinalityStatus(env, hs, h, seen) == Ok(e.status)
    && hs[stampAt].clock == e.stamp
    && e.stamp <= hs[seen.header].clock + lag
  }

  ghost predicate Backed(env: Env, hs: History, h: Hash, e: Entry, now: nat, lag: nat) {
    exists seen, stampAt: nat :: stampAt <= now && Computed(env, hs, h, e, seen, stampAt, lag)
  }

  ghost predicate AllBacked(env: Env, hs: History, t: Table, now: nat, lag: nat) {
    forall h <- t :: Backed(env, hs, h, t[h], now, lag)
  }

  /** Every fill of the run stores within `lag` of its first read; 0 when computing and storing are atomic. */
  predicate StoresWithin(hs: History, es: seq<Event>, lag: nat) {
    forall i :: 0 <= i < |es| && es[i].Fill? && IsEvent(es[i], |hs|) ==>
      hs[es[i].stampAt].clock <= hs[es[i].seen.header].clock + lag
  }

  lemma ApplyKeepsBacked(env: Env, hs: History, t: Table, e: Event, evicts: bool, before: nat, now: nat, lag: nat)
    requires AllBacked(env, hs, t, before, lag)
    requires IsEvent(e, |hs|) && before <= End(e) <= now
    requires e.Fill? ==> hs[e.stampAt].clock <= hs[e.seen.header].clock + lag
    ensures AllBacked(env, hs, Apply(env, hs, t, e, evicts), now, lag)
  {
    var t' := Apply(env, hs, t, e, evicts);
    forall h | h in t' ensures Backed(env, hs, h, t'[h], now, lag) {
      if e.Fill? && h == e.hash && GetFinalityStatus(env, hs, h, e.seen).Ok? {
        assert Computed(env, hs, h, t'[h], e.seen, e.stampAt, lag);
      } else {
        BackedLater(env, hs, h, t[h], before, now, lag);
      }
    }
  }

  lemma BackedLater(env: Env, hs: History, h: Hash, e: Entry, before: nat, now: nat, lag: nat)
    requires Backed(env, hs, h, e, before, lag) && before <= now
    ensures Backed(env, hs, h, e, now, lag)
  {
    var seen, stampAt: nat :| stampAt <= before && Computed(env, hs, h, e, seen, stampAt, lag);
    assert stampAt <= now;
  }

  /** Every cached status was computed from reads no later than its stamp. */
  lemma {:induction false} EntriesBacked(env: Env, hs: History, es: seq<Event>, now: nat, evicts: bool, lag: nat)
    requires IsRun(hs, es, now) && StoresWithin(hs, es, lag)
    ensures AllBacked(env, hs, Run(env, hs, es, now, evicts), now, lag)
    decreases |es|
  {
    if es != [] {
      var init, last := es[..|es| - 1], es[|es| - 1];
      assert forall i :: 0 <= i < |init| ==> init[i] == es[i];
      EntriesBacked(env, hs, init, Begin(last), evicts, lag);
      ApplyKeepsBacked(env, hs, Run(env, hs, init, Begin(last), evicts), last, evicts, Begin(last), now, lag);
    }
  }

  /** A status read earlier claims no more than the client shows now. */
  ghost predicate NotOverstated(env: Env, hs: History, h: Hash, s: Status, now: nat)
    requires now < |hs|
  {
    && h in env.ledger.headers && s.blockNumber == env.ledger.headers[h].number
    && (s.isFinalized ==> s.blockNumber <= hs[now].finalizedNumber)
    && s.confirmations <= SaturatingSub(hs[now].finalizedNumber, s.blockNumber)
  }

  lemma StatusNeverOverstates(env: Env, hs: History, h: Hash, seen: StatusReads, s: Status, now: nat)
    requires IsHistory(env.ledger, hs) && InRange(seen, |hs|) && seen.info <= now < |hs|
    requires GetFinalityStatus(env, hs, h, seen) == Ok(s)
    ensures NotOverstated(env, hs, h, s, now)
  {
    Later(env.ledger, hs, seen.info, now);
  }

  /**
   A hit may lag behind but never overstates: a block it reports finalized is finalized, and it reports no
   more confirmations than the block has when the answer is given.
   */
  lemma HitNeverOverstates(env: Env, hs: History, es: seq<Event>, h: Hash, now: nat, s: Status)
    requires IsHistory(env.ledger, hs) && IsRun(hs, es, now)
    requires Hit(Run(env, hs, es, now, true), h, hs[now].clock) == Some(s)
    ensures NotOverstated(env, hs, h, s, now)
  {
    StampsBounded(env.ledger, hs, es, now);
    var seen, stampAt := SourceOfHit(env, hs, es, h, now, hs[now].clock, s);
    StatusNeverOverstates(env, hs, h, seen, s, now);
  }

  lemma SourceOfHit(env: Env, hs: History, es: seq<Event>, h: Hash, now: nat, lag: nat, s: Status)
    returns (seen: StatusReads, stampAt: nat)
    requires IsRun(hs, es, now) && StoresWithin(hs, es, lag)
    requires Hit(Run(env, hs, es, now, true), h, hs[now].clock) == Some(s)
    ensures InOrder(seen) && seen.voters <= stampAt <= now
    ensures GetFinalityStatus(env, hs, h, seen) == Ok(s)
    ensures hs[now].clock < hs[seen.header].clock + 5000 + lag
  {
    EntriesBacked(env, hs, es, now, true, lag);
    var t := Run(env, hs, es, now, true);
    assert Backed(env, hs, h, t[h], now, lag);
    seen, stampAt :| stampAt <= now && Computed(env, hs, h, t[h], seen, stampAt, lag);
  }

  lemma {:induction false} StampsBounded(l: Ledger, hs: History, es: seq<Event>, now: nat)
    requires IsHistory(l, hs) && IsRun(hs, es, now)
    ensures StoresWithin(hs, es, hs[now].clock)
    decreases |es|
  {
    if es != [] {
      var init, last := es[..|es| - 1], es[|es| - 1];
      StampsBounded(l, hs, init, Begin(last));
      Later(l, hs, Begin(last), End(last));
      Later(l, hs, End(last), now);
      forall i | 0 <= i < |es| && es[i].Fill? && IsEvent(es[i], |hs|)
        ensures hs[es[i].stampAt].clock <= hs[es[i].seen.header].clock + hs[now].clock
      {
        if i < |init| { assert init[i] == es[i]; }
      }
    }
  }

  /**
   A hit is the status some earlier reads gave, first made less than five seconds plus the lag between
   computing and storing before.  Atomic calls have no lag, so their answers are less than five seconds old.
   */
  lemma HitStaleness(env: Env, hs: History, es: seq<Event>, h: Hash, now: nat, lag: nat, s: Status)
    returns (seen: StatusReads)
    requires IsRun(hs, es, now) && StoresWithin(hs, es, lag)
    requires Hit(Run(env, hs, es, now, true), h, hs[now].clock) == Some(s)
    ensures ReadsWithin(env, hs, h, s, now, 5000 + lag, seen)
  {
    var stampAt;
    seen, stampAt := SourceOfHit(env, hs, es, h, now, lag, s);
  }

  /** Reads that give the status and began less than `bound` before now. */
  ghost predicate ReadsWithin(env: Env, hs: History, h: Hash, s: Status, now: nat, bound: nat, seen: StatusReads)
    requires now < |hs|
  {
    && InOrder(seen) && seen.voters <= now
    && GetFinalityStatus(env, hs, h, seen) == Ok(s)
    && hs[now].clock < hs[seen.header].clock + bound
  }

  // ----- Eviction

  /**
   Dropping entries after thirty seconds is invisible: after every run both caches answer every question
   alike, because what only the larger one holds is too old to be served.
   */
  lemma EvictionInvisible(env: Env, hs: History, es: seq<Event>, h: Hash, now: nat)
    requires IsHistory(env.ledger, hs) && IsRun(hs, es, now)
    ensures Hit(Run(env, hs, es, now, true), h, hs[now].clock) == Hit(Run(env, hs, es, now, false), h, hs[now].clock)
  {
    OnlyOldEntriesDiffer(env, hs, es, now);
  }

  ghost predicate SameButOld(small: Table, large: Table, clock: nat) {
    && small.Keys <= large.Keys
    && (forall h <- small :: small[h] == large[h])
    && (forall h <- large :: h !in small ==> large[h].stamp + 30000 <= clock)
  }

  lemma ApplyKeepsSame(env: Env, hs: History, small: Table, large: Table, e: Event, before: nat, now: nat)
    requires IsEvent(e, |hs|) && SameButOld(small, large, before)
    requires before <= hs[End(e)].clock <= now
    ensures SameButOld(Apply(env, hs, small, e, true), Apply(env, hs, large, e, false), now)
  {
  }

  lemma {:induction false} OnlyOldEntriesDiffer(env: Env, hs: History, es: seq<Event>, now: nat)
    requires IsHistory(env.ledger, hs) && IsRun(hs, es, now)
    ensures SameButOld(Run(env, hs, es, now, true), Run(env, hs, es, now, false), hs[now].clock)
    decreases |es|
  {
    if es != [] {
      var init, last := es[..|es| - 1], es[|es| - 1];
      OnlyOldEntriesDiffer(env, hs, init, Begin(last));
      Later(env.ledger, hs, Begin(last), End(last));
      Later(env.ledger, hs, End(last), now);
      ApplyKeepsSame(env, hs, Run(env, hs, init, Begin(last), true), Run(env, hs, init, Begin(last), false), last,
                     hs[Begin(last)].clock, hs[now].clock);
    }
  }

  // ----- Which answer is given

  /** A status is served exactly if an entry holds it whose stamp is less than five seconds old. */
  lemma HitExactly(t: Table, h: Hash, now: nat, s: Status)
    ensures Hit(t, h, now) == Some(s) <==> h in t && t[h].status == s && now < t[h].stamp + 5000
  {
  }

  /**
   One fill: nothing changes if computing failed; otherwise the block's entry is the new one, every other entry is
   as before, and of all these exactly those at least thirty seconds old are dropped, if the cache drops any.
   */
  lemma FillExactly(env: Env, hs: History, t: Table, e: Event, evicts: bool, k: Hash)
    requires e.Fill? && IsEvent(e, |hs|)
    ensures var t' := Apply(env, hs, t, e, evicts);
            match GetFinalityStatus(env, hs, e.hash, e.seen)
            case Err(_) => t' == t
            case Ok(s) =>
              if k != e.hash && k !in t then k !in t'
              else
                var entry := if k == e.hash then Entry(s, hs[e.stampAt].clock) else t[k];
                && (k in t' <==> !evicts || hs[e.retainAt].clock < entry.stamp + 30000)
                && (k in t' ==> t'[k] == entry)
  {
  }

  /** The fill at `i` computed a status of the block. */
  predicate FillsAt(env: Env, hs: History, es: seq<Event>, h: Hash, i: int) {
    && 0 <= i < |es| && es[i].Fill? && es[i].hash == h && IsEvent(es[i], |hs|)
    && GetFinalityStatus(env, hs, h, es[i].seen).Ok?
  }

  ghost predicate LatestFill(env: Env, hs: History, es: seq<Event>, h: Hash, i: int) {
    FillsAt(env, hs, es, h, i) && forall j :: i < j < |es| ==> !FillsAt(env, hs, es, h, j)
  }

  /** The block's entry is what its latest fill computed, and there is one only if there was such a fill. */
  ghost predicate HoldsLatest(env: Env, hs: History, t: Table, es: seq<Event>, h: Hash) {
    && (h in t ==> exists i :: LatestFill(env, hs, es, h, i))
    && (forall i | LatestFill(env, hs, es, h, i) ::
          && h in t && t[h].stamp == hs[es[i].stampAt].clock
          && GetFinalityStatus(env, hs, h, es[i].seen) == Ok(t[h].status))
  }

  /** A cache that keeps every entry holds for each block what its latest fill computed. */
  lemma {:induction false} HoldsLatestFill(env: Env, hs: History, es: seq<Event>, h: Hash, now: nat)
    requires IsRun(hs, es, now)
    ensures HoldsLatest(env, hs, Run(env, hs, es, now, false), es, h)
    decreases |es|
  {
    if es != [] {
      var init, last := es[..|es| - 1], es[|es| - 1];
      HoldsLatestFill(env, hs, init, h, Begin(last));
      ApplyHoldsLatest(env, hs, Run(env, hs, init, Begin(last), false), es, h);
    }
  }

  lemma ApplyHoldsLatest(env: Env, hs: History, t: Table, es: seq<Event>, h: Hash)
    requires es != [] && IsEvent(es[|es| - 1], |hs|)
    requires HoldsLatest(env, hs, t, es[..|es| - 1], h)
    ensures HoldsLatest(env, hs, Apply(env, hs, t, es[|es| - 1], false), es, h)
  {
    var init := es[..|es| - 1];
    LatestOfMore(env, hs, es, h);
    if FillsAt(env, hs, es, h, |init|) {
      assert LatestFill(env, hs, es, h, |init|);
    } else {
      assert forall i | LatestFill(env, hs, init, h, i) :: LatestFill(env, hs, es, h, i) && init[i] == es[i];
    }
  }

  lemma LatestOfMore(env: Env, hs: History, es: seq<Event>, h: Hash)
    requires es != []
    ensures forall i :: LatestFill(env, hs, es, h, i) <==>
                        if FillsAt(env, hs, es, h, |es| - 1) then i == |es| - 1
                        else LatestFill(env, hs, es[..|es| - 1], h, i)
  {
    var init := es[..|es| - 1];
    assert forall i | 0 <= i < |init| :: FillsAt(env, hs, init, h, i) == FillsAt(env, hs, es, h, i);
  }

  /**
   What the cache answers, exactly: after any run it serves a status if and only if the block's latest successful
   fill computed it and is stamped less than five seconds ago, whatever other blocks were filled since.
   */
  lemma AnswersLatestFill(env: Env, hs: History, es: seq<Event>, h: Hash, now: nat, s: Status)
    requires IsHistory(env.ledger, hs) && IsRun(hs, es, now)
    ensures Hit(Run(env, hs, es, now, true), h, hs[now].clock) == Some(s) <==>
            exists i :: && LatestFill(env, hs, es, h, i)
                        && GetFinalityStatus(env, hs, h, es[i].seen) == Ok(s)
                        && hs[now].clock < hs[es[i].stampAt].clock + 5000
  {
    EvictionInvisible(env, hs, es, h, now);
    HoldsLatestFill(env, hs, es, h, now);
  }

  // ----- How old answers get

  /** A question put to the cache at the end of a run. */
  datatype Question = Question(env: Env, hs: History, es: seq<Event>, h: Hash, now: nat)

  ghost predicate IsQuestion(q: Question, lag: nat) {
    IsHistory(q.env.ledger, q.hs) && IsRun(q.hs, q.es, q.now) && StoresWithin(q.hs, q.es, lag)
  }

  function AnswerTo(q: Question): Option<Status>
    requires IsRun(q.hs, q.es, q.now)
  {
    Hit(Run(q.env, q.hs, q.es, q.now, true), q.h, q.hs[q.now].clock)
  }

  ghost predicate AnsweredWithin(q: Question, bound: nat)
    requires q.now < |q.hs| && IsRun(q.hs, q.es, q.now)
  {
    AnswerTo(q).Some? ==> exists seen :: ReadsWithin(q.env, q.hs, q.h, AnswerTo(q).value, q.now, bound, seen)
  }

  /** In every run that stores within `lag`, every answer is less than `bound` old. */
  ghost predicate AgeBounded(lag: nat, bound: nat) {
    forall q: Question :: IsQuestion(q, lag) ==> AnsweredWithin(q, bound)
  }

  /** The block at height 0 is finalized alone at first; once the lag is over so is the one above it. */
  const SLOW_ENV := Env(Ledger(map[0 := Header(0, 2), 1 := Header(1, 0)], U32_MAX),
                        Primitives(_ => [], (_, _, _) => true, _ => None))

  function SlowHistory(lag: nat): History {
    [ World({0, 1}, 0, 0, 1, map[], OneVoter(), 0, false, false),
      World({0, 1}, 1, 1, 1, map[], OneVoter(), lag, false, false),
      World({0, 1}, 1, 1, 1, map[], OneVoter(), lag + 4999, false, false) ]
  }

  /** A status computed at first, stored after the lag, and asked for when it is about to expire. */
  function SlowQuestion(lag: nat): Question {
    Question(SLOW_ENV, SlowHistory(lag), [Fill(0, Moment(0), 1, 1)], 0, 2)
  }

  lemma SlowIsQuestion(lag: nat)
    ensures IsQuestion(SlowQuestion(lag), lag)
  {
    var l, hs := SLOW_ENV.ledger, SlowHistory(lag);
    assert Walk(l, 0, 0) == Some(0) && Walk(l, 1, 0) == Some(1) && Walk(l, 1, 1) == Some(0);
    assert IsWorld(l, hs[0]) && IsWorld(l, hs[1]) && IsWorld(l, hs[2]);
    assert Advances(l, hs[0], hs[1]) && Advances(l, hs[1], hs[2]);
    assert [Fill(0, Moment(0), 1, 1)][..0] == [] && IsRun(hs, [], 1);
  }

  /**
   A call that computes, stalls for the lag and then stores makes the cache serve a status five seconds less
   a millisecond past the lag, which the client would no longer give and no later reads account for.
   */
  lemma StalenessAttained(lag: nat)
    ensures IsQuestion(SlowQuestion(lag), lag)
    ensures var q := SlowQuestion(lag);
            && AnswerTo(q).Some?
            && AnswerTo(q).value != GetFinalityStatus(q.env, q.hs, q.h, Moment(q.now)).value
            && forall seen :: InOrder(seen) && seen.voters <= q.now
                              && GetFinalityStatus(q.env, q.hs, q.h, seen) == Ok(AnswerTo(q).value) ==>
                              q.hs[q.now].clock == q.hs[seen.header].clock + lag + 4999
  {
    SlowIsQuestion(lag);
    var q := SlowQuestion(lag);
    assert q.es[..0] == [] && Run(q.env, q.hs, [], 1, true) == map[];
    assert AnswerTo(q) == Some(Status(0, 0, false, true, 0.0));
  }

  /**
   The age of answers, exactly: over all histories and runs that store within `lag` of computing, answers are
   always less than `bound` old if and only if the bound is at least five seconds plus the lag.  So five
   seconds are guaranteed for atomic calls and for no others, and with no bound on the lag there is none.
   */
  lemma StalenessExact(lag: nat, bound: nat)
    ensures AgeBounded(lag, bound) <==> bound >= 5000 + lag
  {
    if bound >= 5000 + lag {
      forall q: Question | IsQuestion(q, lag) ensures AnsweredWithin(q, bound) {
        if AnswerTo(q).Some? {
          var seen := HitStaleness(q.env, q.hs, q.es, q.h, q.now, lag, AnswerTo(q).value);
          assert ReadsWithin(q.env, q.hs, q.h, AnswerTo(q).value, q.now, bound, seen);
        }
      }
    } else {
      StalenessAttained(lag);
      assert !AnsweredWithin(SlowQuestion(lag), bound);
    }
  }
}
