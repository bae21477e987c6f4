/**
 Registration (src/lib.rs): accepted targets go into the storage map and into the in-process observer, which
 is created once per runtime type and kept in a table behind a lock.
 */
module Pallet {
  import opened Common
  import opened Matching
  import opened Observer

  type TargetHash = nat
  type TypeId = nat

  datatype CallError = BadOrigin | InvalidWatchTarget

  /** The storage map, the observer's list once there is one, and the deposited events. */
  datatype Ledgered = Ledgered(
    watchTargets: map<TargetHash, WatchTarget>,
    listed: Option<seq<WatchTarget>>,
    events: seq<TargetHash>
  )

  /** One call; `poisoned` says whether it finds the table's lock poisoned by a panic elsewhere. */
  datatype Call = OnInitialize(poisoned: bool) | Register(signed: bool, target: WatchTarget, poisoned: bool)

  predicate Named(t: WatchTarget) {
    t.moduleName != [] && t.functionName != []
  }

  predicate Accepted(c: Call) {
    c.Register? && c.signed && Named(c.target)
  }

  function EnsuredList(listed: Option<seq<WatchTarget>>): seq<WatchTarget> {
    if listed.Some? then listed.value else []
  }

  /** The effect of one call on the three places. */
  function AfterCall(hash: WatchTarget -> TargetHash, s: Ledgered, c: Call): Ledgered {
    match c
    case OnInitialize(poisoned) =>
      if poisoned then s else s.(listed := Some(EnsuredList(s.listed)))
    case Register(_, target, poisoned) =>
      if !Accepted(c) then s
      else Ledgered(s.watchTargets[hash(target) := target],
                    if poisoned then s.listed else Some(EnsuredList(s.listed) + [target]),
                    s.events + [hash(target)])
  }

  class Runtime {
    var watchTargets: map<TargetHash, WatchTarget>
    var observers: map<TypeId, SSMPObserver>
    var events: seq<TargetHash>
    const typeId: TypeId
    const routes: bool
    const hash: WatchTarget -> TargetHash

    ghost function Abstract(): Ledgered
      reads this, if typeId in observers then {observers[typeId]} else {}
    {
      Ledgered(watchTargets, if typeId in observers then Some(observers[typeId].watchTargets) else None, events)
    }

    constructor (typeId: TypeId, routes: bool, hash: WatchTarget -> TargetHash)
      ensures Abstract() == Ledgered(map[], None, [])
      ensures this.typeId == typeId && this.routes == routes && this.hash == hash
    {
      watchTargets, observers, events := map[], map[], [];
      this.typeId, this.routes, this.hash := typeId, routes, hash;
    }

    /** The memoised observer, created on the first successful look at the table; none if the lock is poisoned. */
    method EnsureObserver(poisoned: bool) returns (o: SSMPObserver?)
      modifies this`observers
      ensures poisoned ==> o == null && observers == old(observers)
      ensures !poisoned ==> o != null && observers == old(observers)[typeId := o]
      ensures !poisoned && typeId in old(observers) ==> o == old(observers)[typeId]
      ensures !poisoned && typeId !in old(observers) ==> fresh(o) && o.watchTargets == []
    {
      if poisoned {
        return null;
      }
      if typeId in observers {
        o := observers[typeId];
      } else {
        o := new SSMPObserver(routes);
        observers := observers[typeId := o];
      }
    }

    method OnInitializeBlock(poisoned: bool)
      modifies this`observers
      ensures Abstract() == AfterCall(hash, old(Abstract()), OnInitialize(poisoned))
    {
      var _ := EnsureObserver(poisoned);
    }

    method RegisterWatchTarget(signed: bool, target: WatchTarget, poisoned: bool) returns (r: Result<(), CallError>)
      modifies this, if typeId in observers then {observers[typeId]} else {}
      ensures Abstract() == AfterCall(hash, old(Abstract()), Register(signed, target, poisoned))
      ensures r == if !signed then Err(BadOrigin)
                   else if target.moduleName == [] || target.functionName == [] then Err(InvalidWatchTarget)
                   else Ok(())
      ensures forall id <- old(observers) :: id in observers && observers[id] == old(observers[id])
    {
      if !signed {
        return Err(BadOrigin);
      }
      if target.moduleName == [] || target.functionName == [] {
        return Err(InvalidWatchTarget);
      }
      var targetHash := hash(target);
      watchTargets := watchTargets[targetHash := target];
      var o := EnsureObserver(poisoned);
      if o != null {
        o.RegisterWatchTarget(target);
      }
      events := events + [targetHash];
      return Ok(());
    }
  }

  // ----- One call

  /**
   An unsigned call or one with an empty name changes nothing.  Any other registration sets the entry under its hash,
   deposits that hash and, if the lock is intact, appends the target to the list.
   */
  lemma CallExactly(hash: WatchTarget -> TargetHash, s: Ledgered, c: Call, h: TargetHash)
    ensures var s' := AfterCall(hash, s, c);
            match c
            case OnInitialize(poisoned) =>
              && s'.watchTargets == s.watchTargets && s'.events == s.events
              && (if poisoned || s.listed.Some? then s'.listed == s.listed else s'.listed == Some([]))
            case Register(signed, t, poisoned) =>
              if !signed || t.moduleName == [] || t.functionName == [] then s' == s
              else
                && s'.events == s.events + [hash(t)]
                && (h in s'.watchTargets <==> h == hash(t) || h in s.watchTargets)
                && (h in s'.watchTargets ==> s'.watchTargets[h] == if h == hash(t) then t else s.watchTargets[h])
                && (if poisoned then s'.listed == s.listed
                    else s'.listed == Some((if s.listed.Some? then s.listed.value else []) + [t]))
  {
  }

  // ----- Runs

  const GENESIS := Ledgered(map[], None, [])

  function Run(hash: WatchTarget -> TargetHash, calls: seq<Call>): Ledgered {
    if calls == [] then GENESIS
    else AfterCall(hash, Run(hash, calls[..|calls| - 1]), calls[|calls| - 1])
  }

  /** The targets of the accepted calls, in order; only those that reached the observer if `reached`. */
  function AcceptedTargets(calls: seq<Call>, reached: bool): seq<WatchTarget> {
    if calls == [] then [] else
      var last := calls[|calls| - 1];
      AcceptedTargets(calls[..|calls| - 1], reached)
      + (if Accepted(last) && (reached ==> !last.poisoned) then [last.target] else [])
  }

  ghost predicate CollisionFree(hash: WatchTarget -> TargetHash) {
    forall t, u :: hash(t) == hash(u) ==> t == u
  }

  ghost function Elements(targets: seq<WatchTarget>): set<WatchTarget> {
    set t | t in targets
  }

  /**
   Storage holds the accepted targets, the observer lists those that reached it, in order and with repeats, and the
   events are the hashes of the accepted ones in order.
   */
  ghost predicate Holds(hash: WatchTarget -> TargetHash, s: Ledgered, all: seq<WatchTarget>,
                        reached: seq<WatchTarget>) {
    && s.watchTargets.Values == Elements(all)
    && (forall h <- s.watchTargets :: h == hash(s.watchTargets[h]))
    && EnsuredList(s.listed) == reached
    && |s.events| == |all| && (forall i :: 0 <= i < |all| ==> s.events[i] == hash(all[i]))
  }

  lemma HoldsAfterRegister(hash: WatchTarget -> TargetHash, s: Ledgered, c: Call, all: seq<WatchTarget>,
                           reached: seq<WatchTarget>)
    requires CollisionFree(hash) && Accepted(c) && Holds(hash, s, all, reached)
    ensures Holds(hash, AfterCall(hash, s, c), all + [c.target], reached + (if c.poisoned then [] else [c.target]))
  {
    InsertedValues(hash, s.watchTargets, c.target);
    assert Elements(all + [c.target]) == Elements(all) + {c.target};
  }

  lemma {:induction false} RunContents(hash: WatchTarget -> TargetHash, calls: seq<Call>)
    requires CollisionFree(hash)
    ensures Holds(hash, Run(hash, calls), AcceptedTargets(calls, false), AcceptedTargets(calls, true))
    decreases |calls|
  {
    if calls == [] {
      assert Elements([]) == {};
    } else {
      var init, last := calls[..|calls| - 1], calls[|calls| - 1];
      RunContents(hash, init);
      if Accepted(last) {
        HoldsAfterRegister(hash, Run(hash, init), last, AcceptedTargets(init, false), AcceptedTargets(init, true));
      }
    }
  }

  lemma InsertedValues(hash: WatchTarget -> TargetHash, m: map<TargetHash, WatchTarget>, t: WatchTarget)
    requires CollisionFree(hash) && forall h <- m :: h == hash(m[h])
    ensures m[hash(t) := t].Values == m.Values + {t}
  {
    var m' := m[hash(t) := t];
    forall u | u in m.Values + {t} ensures u in m'.Values {
      if u != t {
        var h :| h in m && m[h] == u;
        assert m'[h] == u;
      } else {
        assert m'[hash(t)] == t;
      }
    }
  }

  /**
   Registration agreement, exactly: after any run the storage map and the observer's list hold the same
   targets if and only if every accepted target was accepted at least once with the lock intact.
   */
  lemma AgreementExact(hash: WatchTarget -> TargetHash, calls: seq<Call>)
    requires CollisionFree(hash)
    ensures Run(hash, calls).watchTargets.Values == Elements(EnsuredList(Run(hash, calls).listed)) <==>
            forall i :: 0 <= i < |calls| && Accepted(calls[i]) ==> ReachedObserver(calls, calls[i].target)
  {
    RunContents(hash, calls);
    SameTargets(calls);
  }

  lemma SameTargets(calls: seq<Call>)
    ensures Elements(AcceptedTargets(calls, false)) == Elements(AcceptedTargets(calls, true)) <==>
            forall i :: 0 <= i < |calls| && Accepted(calls[i]) ==> ReachedObserver(calls, calls[i].target)
  {
    var all, reached := Elements(AcceptedTargets(calls, false)), Elements(AcceptedTargets(calls, true));
    if all == reached {
      forall i | 0 <= i < |calls| && Accepted(calls[i]) ensures ReachedObserver(calls, calls[i].target) {
        assert AcceptedAt(calls, false, calls[i].target, i);
        TargetsOfCalls(calls, false, calls[i].target);
        assert calls[i].target in all;
        TargetsOfCalls(calls, true, calls[i].target);
      }
    }
    if forall i :: 0 <= i < |calls| && Accepted(calls[i]) ==> ReachedObserver(calls, calls[i].target) {
      forall t ensures t in all <==> t in reached {
        TargetsOfCalls(calls, false, t);
        TargetsOfCalls(calls, true, t);
        if i :| AcceptedAt(calls, true, t, i) {
          assert AcceptedAt(calls, false, t, i);
        }
      }
    }
  }

  /** One accepted call that finds the lock poisoned is enough for the two to differ. */
  lemma PoisonedCallDiffers(hash: WatchTarget -> TargetHash, t: WatchTarget)
    requires CollisionFree(hash) && Named(t)
    ensures var s := Run(hash, [Register(true, t, true)]);
            t in s.watchTargets.Values && t !in EnsuredList(s.listed)
  {
    var calls := [Register(true, t, true)];
    RunContents(hash, calls);
    TargetsOfCalls(calls, false, t);
    TargetsOfCalls(calls, true, t);
    assert Accepted(calls[0]);
  }

  ghost predicate ReachedObserver(calls: seq<Call>, t: WatchTarget) {
    exists i :: AcceptedAt(calls, true, t, i)
  }

  /** The call at `i` was accepted for the target; if `reached`, with the lock intact. */
  ghost predicate AcceptedAt(calls: seq<Call>, reached: bool, t: WatchTarget, i: int) {
    0 <= i < |calls| && Accepted(calls[i]) && (reached ==> !calls[i].poisoned) && calls[i].target == t
  }

  lemma {:induction false} TargetsOfCalls(calls: seq<Call>, reached: bool, t: WatchTarget)
    ensures t in AcceptedTargets(calls, reached) <==> exists i :: AcceptedAt(calls, reached, t, i)
    decreases |calls|
  {
    if calls != [] {
      var init, last := calls[..|calls| - 1], calls[|calls| - 1];
      TargetsOfCalls(init, reached, t);
      assert forall i :: AcceptedAt(init, reached, t, i) ==> AcceptedAt(calls, reached, t, i);
      assert forall i :: AcceptedAt(calls, reached, t, i) ==> i == |init| || AcceptedAt(init, reached, t, i);
      if Accepted(last) && (reached ==> !last.poisoned) && last.target == t {
        assert AcceptedAt(calls, reached, t, |init|);
      }
    }
  }

  /** A target is stored exactly if some signed call named it in full. */
  lemma StoredExactly(hash: WatchTarget -> TargetHash, calls: seq<Call>, t: WatchTarget)
    requires CollisionFree(hash)
    ensures t in Run(hash, calls).watchTargets.Values <==>
            t.moduleName != [] && t.functionName != []
            && exists c <- calls :: c.Register? && c.signed && c.target == t
  {
    RunContents(hash, calls);
    TargetsOfCalls(calls, false, t);
    CallsByPlace(calls, false, t);
  }

  /** It is listed exactly if some such call found the lock intact. */
  lemma ListedExactly(hash: WatchTarget -> TargetHash, calls: seq<Call>, t: WatchTarget)
    requires CollisionFree(hash)
    ensures t in EnsuredList(Run(hash, calls).listed) <==>
            t.moduleName != [] && t.functionName != []
            && exists c <- calls :: c.Register? && c.signed && !c.poisoned && c.target == t
  {
    RunContents(hash, calls);
    TargetsOfCalls(calls, true, t);
    CallsByPlace(calls, true, t);
  }

  lemma CallsByPlace(calls: seq<Call>, reached: bool, t: WatchTarget)
    ensures (exists i :: AcceptedAt(calls, reached, t, i)) <==>
            Named(t) && exists c <- calls :: c.Register? && c.signed && (reached ==> !c.poisoned) && c.target == t
  {
    if c :| c in calls && c.Register? && c.signed && (reached ==> !c.poisoned) && c.target == t && Named(t) {
      var i :| 0 <= i < |calls| && calls[i] == c;
      assert AcceptedAt(calls, reached, t, i);
    }
  }

  /** With the lock intact throughout, both hold the same targets and the list has one entry per accepted call. */
  lemma RegistrationAgrees(hash: WatchTarget -> TargetHash, calls: seq<Call>)
    requires CollisionFree(hash) && forall c <- calls :: !c.poisoned
    ensures var s := Run(hash, calls);
            && s.watchTargets.Values == Elements(EnsuredList(s.listed))
            && |EnsuredList(s.listed)| == |s.events|
            && (forall t <- EnsuredList(s.listed) :: Named(t))
            && (forall t <- EnsuredList(s.listed) :: Searchable(t) <==> t.messageHash != Some([]))
  {
    RunContents(hash, calls);
    AllReach(calls);
    forall t | t in AcceptedTargets(calls, true) ensures Named(t) {
      TargetsOfCalls(calls, true, t);
    }
  }

  lemma {:induction false} AllReach(calls: seq<Call>)
    requires forall c <- calls :: !c.poisoned
    ensures AcceptedTargets(calls, true) == AcceptedTargets(calls, false)
  {
    if calls != [] { AllReach(calls[..|calls| - 1]); }
  }
}
