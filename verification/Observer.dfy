/**
 The observer and its worker (src/observer/mod.rs): on each finality notification the observer asks for a
 verdict, snapshots its targets, and proves and routes matching ones until the first error.
 */
module Observer {
  import opened Common
  import opened Finality
  import opened Matching

  /** How handling a notification ends early.  A panic is no error value: it unwinds through the worker. */
  datatype ObserverError =
    | FinalityCheckFailed
    | EventsUnavailable
    | ProofGenerationFailed
    | MessageRoutingFailed
    | Panicked

  /** What distinguishes the transition built for a target; roots and chain id are constants. */
  datatype Transition = Transition(blockNumber: nat, moduleName: Bytes, functionName: Bytes, targetChain: Bytes)

  datatype Message = Message(proof: Bytes)

  /**
   A notification together with everything its handling will meet: the verdict of is_final and, for each
   target position, what the event query, the prover and the router answer then.
   */
  datatype Notification = Notification(
    block: BlockRef,
    verdict: Result<bool, FinalityError>,
    events: nat -> Option<seq<Bytes>>,
    prove: (nat, Transition) -> Option<Bytes>,
    accepts: (nat, Message) -> bool
  )

  function TransitionFor(block: BlockRef, t: WatchTarget): Transition {
    Transition(block.number, t.moduleName, t.functionName, t.targetChain)
  }

  // ----- Specification of one block

  datatype Outcome = Skip | Deliver(message: Message) | Abort(error: ObserverError)

  /** What the target at position `i` of the snapshot leads to. */
  ghost function OutcomeOf(n: Notification, hasRouter: bool, i: nat, t: WatchTarget): Outcome {
    match n.events(i)
    case None => Abort(EventsUnavailable)
    case Some(events) =>
      if SomeProvokes(events, t) then Abort(Panicked)
      else if !(Searchable(t) && SomeMention(events, t)) then Skip
      else
        match n.prove(i, TransitionFor(n.block, t))
        case None => Abort(ProofGenerationFailed)
        case Some(proof) =>
          if !hasRouter then Skip
          else if n.accepts(i, Message(proof)) then Deliver(Message(proof))
          else Abort(MessageRoutingFailed)
  }

  ghost function Outcomes(n: Notification, hasRouter: bool, targets: seq<WatchTarget>): (os: seq<Outcome>)
    ensures |os| == |targets|
    ensures forall i :: 0 <= i < |os| ==> os[i] == OutcomeOf(n, hasRouter, i, targets[i])
  {
    seq(|targets|, i requires 0 <= i < |targets| => OutcomeOf(n, hasRouter, i, targets[i]))
  }

  /** The position of the first error, or the number of targets. */
  ghost function Cut(os: seq<Outcome>): (k: nat)
    ensures k <= |os|
    ensures forall i :: 0 <= i < k ==> !os[i].Abort?
    ensures k < |os| ==> os[k].Abort?
  {
    if os == [] || os[0].Abort? then 0 else 1 + Cut(os[1..])
  }

  /** The messages among the outcomes, in order. */
  ghost function Delivered(os: seq<Outcome>): seq<Message> {
    if os == [] then [] else
      var last := os[|os| - 1];
      Delivered(os[..|os| - 1]) + (if last.Deliver? then [last.message] else [])
  }

  ghost function BlockLog(n: Notification, hasRouter: bool, targets: seq<WatchTarget>): seq<Message> {
    if n.verdict == Ok(true) then
      var os := Outcomes(n, hasRouter, targets);
      Delivered(os[..Cut(os)])
    else []
  }

  ghost function BlockResult(n: Notification, hasRouter: bool, targets: seq<WatchTarget>): Result<(), ObserverError>
  {
    match n.verdict
    case Err(_) => Err(FinalityCheckFailed)
    case Ok(final) =>
      var os := Outcomes(n, hasRouter, targets);
      if final && Cut(os) < |os| then Err(os[Cut(os)].error) else Ok(())
  }

  class SSMPObserver {
    var watchTargets: seq<WatchTarget>
    /** What the configured router has accepted, oldest first. */
    var routed: seq<Message>
    const hasRouter: bool

    constructor (hasRouter: bool)
      ensures watchTargets == [] && routed == []
      ensures this.hasRouter == hasRouter
    {
      watchTargets, routed := [], [];
      this.hasRouter := hasRouter;
    }

    method RegisterWatchTarget(target: WatchTarget)
      modifies this`watchTargets
      ensures watchTargets == old(watchTargets) + [target]
    {
      watchTargets := watchTargets + [target];
    }

    method HandleFinalityNotification(n: Notification) returns (r: Result<(), ObserverError>)
      modifies this`routed
      ensures routed == old(routed) + BlockLog(n, hasRouter, watchTargets)
      ensures r == BlockResult(n, hasRouter, watchTargets)
    {
      var verdict := n.verdict;
      if verdict.Err? {
        return Err(FinalityCheckFailed);
      }
      if !verdict.value {
        return Ok(());
      }
      var targets := watchTargets;
      ghost var os := Outcomes(n, hasRouter, targets);
      for i := 0 to |targets|
        invariant i <= Cut(os)
        invariant routed == old(routed) + Delivered(os[..i])
      {
        DeliveredNext(os, i);
        var events := n.events(i);
        if events.None? {
          CutAt(os, i);
          return Err(EventsUnavailable);
        }
        var search := MatchesWatchTarget(events.value, targets[i]);
        if search.Panic? {
          CutAt(os, i);
          return Err(Panicked);
        }
        if search.found {
          var proof := n.prove(i, TransitionFor(n.block, targets[i]));
          if proof.None? {
            CutAt(os, i);
            return Err(ProofGenerationFailed);
          }
          if hasRouter {
            if !n.accepts(i, Message(proof.value)) {
              CutAt(os, i);
              return Err(MessageRoutingFailed);
            }
            routed := routed + [Message(proof.value)];
          }
        }
        NotCutAt(os, i);
      }
      return Ok(());
    }
  }

  lemma DeliveredNext(os: seq<Outcome>, i: nat)
    requires i < |os|
    ensures Delivered(os[..i + 1]) == Delivered(os[..i]) + (if os[i].Deliver? then [os[i].message] else [])
  {
    assert os[..i + 1][..i] == os[..i];
  }

  lemma CutAt(os: seq<Outcome>, i: nat)
    requires i < |os| && i <= Cut(os) && os[i].Abort?
    ensures Cut(os) == i
  {
  }

  lemma NotCutAt(os: seq<Outcome>, i: nat)
    requires i < |os| && i <= Cut(os) && !os[i].Abort?
    ensures i + 1 <= Cut(os)
  {
  }

  // ----- What a block's log contains

  /** How many of the first `k` outcomes deliver. */
  ghost function DeliveringBefore(os: seq<Outcome>, k: nat): nat
    requires k <= |os|
  {
    if k == 0 then 0 else DeliveringBefore(os, k - 1) + (if os[k - 1].Deliver? then 1 else 0)
  }

  /**
   A block's log holds one message for each target that delivers, at the place given by how many targets
   before it deliver, and nothing else.
   */
  lemma {:induction false} DeliveredExactly(os: seq<Outcome>, k: nat, i: nat)
    requires i < k <= |os|
    ensures |Delivered(os[..k])| == DeliveringBefore(os, k)
    ensures os[i].Deliver? ==>
              var place := DeliveringBefore(os, i);
              place < |Delivered(os[..k])| && Delivered(os[..k])[place] == os[i].message
    decreases k
  {
    DeliveredNext(os, k - 1);
    DeliveredCount(os, k - 1);
    DeliveredCount(os, k);
    if i < k - 1 {
      DeliveredExactly(os, k - 1, i);
    }
  }

  lemma {:induction false} DeliveredCount(os: seq<Outcome>, k: nat)
    requires k <= |os|
    ensures |Delivered(os[..k])| == DeliveringBefore(os, k)
  {
    if k > 0 {
      DeliveredCount(os, k - 1);
      DeliveredNext(os, k - 1);
    }
  }

  /** A target delivers exactly when it can be searched for, matches, is proved and its message is accepted. */
  lemma DeliversExactly(n: Notification, i: nat, t: WatchTarget)
    ensures OutcomeOf(n, true, i, t).Deliver? <==>
            && Searchable(t) && n.events(i).Some? && SomeMention(n.events(i).value, t)
            && var proof := n.prove(i, Transition(n.block.number, t.moduleName, t.functionName, t.targetChain));
               proof.Some? && n.accepts(i, Message(proof.value))
    ensures OutcomeOf(n, true, i, t).Deliver? ==>
              var proof := n.prove(i, Transition(n.block.number, t.moduleName, t.functionName, t.targetChain));
              OutcomeOf(n, true, i, t).message == Message(proof.value)
    ensures !OutcomeOf(n, false, i, t).Deliver?
  {
    if n.events(i).Some? && Searchable(t) {
      assert !SomeProvokes(n.events(i).value, t);
    }
  }

  // ----- Which error ends a block

  predicate Proved(n: Notification, i: nat, t: WatchTarget) {
    n.prove(i, Transition(n.block.number, t.moduleName, t.functionName, t.targetChain)).Some?
  }

  ghost predicate Matched(n: Notification, i: nat, t: WatchTarget) {
    n.events(i).Some? && Searchable(t) && SomeMention(n.events(i).value, t)
  }

  /** The failure behind each error, met at position `i`.  A proof is asked for whether or not there is a router. */
  ghost predicate FailsWith(n: Notification, hasRouter: bool, i: nat, t: WatchTarget, e: ObserverError) {
    match e
    case FinalityCheckFailed => false
    case EventsUnavailable => n.events(i).None?
    case Panicked => n.events(i).Some? && SomeProvokes(n.events(i).value, t)
    case ProofGenerationFailed => Matched(n, i, t) && !Proved(n, i, t)
    case MessageRoutingFailed =>
      && hasRouter && Matched(n, i, t) && Proved(n, i, t)
      && var transition := Transition(n.block.number, t.moduleName, t.functionName, t.targetChain);
         !n.accepts(i, Message(n.prove(i, transition).value))
  }

  /** A target aborts with an error exactly when its own failure occurs. */
  lemma AbortsExactly(n: Notification, hasRouter: bool, i: nat, t: WatchTarget, e: ObserverError)
    ensures OutcomeOf(n, hasRouter, i, t) == Abort(e) <==> FailsWith(n, hasRouter, i, t, e)
  {
    if n.events(i).Some? && Searchable(t) {
      assert !SomeProvokes(n.events(i).value, t);
    }
  }

  /** The target at `j` fails with the error, and no target before it fails with any. */
  ghost predicate FirstFailure(n: Notification, hasRouter: bool, targets: seq<WatchTarget>, j: int, e: ObserverError) {
    && 0 <= j < |targets| && FailsWith(n, hasRouter, j, targets[j], e)
    && forall k, e' | 0 <= k < j :: !FailsWith(n, hasRouter, k, targets[k], e')
  }

  lemma FirstFailureIsCut(n: Notification, hasRouter: bool, targets: seq<WatchTarget>, j: int, e: ObserverError)
    ensures FirstFailure(n, hasRouter, targets, j, e) <==>
            var os := Outcomes(n, hasRouter, targets); 0 <= j < |os| && j == Cut(os) && os[j] == Abort(e)
  {
    var os := Outcomes(n, hasRouter, targets);
    forall k, e' | 0 <= k < |os| ensures os[k] == Abort(e') <==> FailsWith(n, hasRouter, k, targets[k], e') {
      AbortsExactly(n, hasRouter, k, targets[k], e');
    }
    assert forall k | 0 <= k < |os| && os[k].Abort? :: FailsWith(n, hasRouter, k, targets[k], os[k].error);
  }

  /**
   How handling a block ends: with the verdict's error, at once if the block is not final, and else with the error
   of the first target that fails, if any.
   */
  lemma FailureExact(n: Notification, hasRouter: bool, targets: seq<WatchTarget>, e: ObserverError)
    ensures BlockResult(n, hasRouter, targets) == Err(e) <==>
            match n.verdict
            case Err(_) => e == FinalityCheckFailed
            case Ok(final) => final && exists j :: FirstFailure(n, hasRouter, targets, j, e)
    ensures n.verdict != Ok(true) ==> BlockLog(n, hasRouter, targets) == []
  {
    if n.verdict == Ok(true) {
      var os := Outcomes(n, hasRouter, targets);
      FirstFailureIsCut(n, hasRouter, targets, Cut(os), e);
      forall j | FirstFailure(n, hasRouter, targets, j, e) ensures j == Cut(os) {
        FirstFailureIsCut(n, hasRouter, targets, j, e);
      }
    }
  }

  /** Neither the target that fails first nor any behind it adds to the log. */
  lemma NothingAfterFailure(n: Notification, hasRouter: bool, targets: seq<WatchTarget>, j: int, e: ObserverError)
    requires FirstFailure(n, hasRouter, targets, j, e)
    ensures BlockLog(n, hasRouter, targets) == BlockLog(n, hasRouter, targets[..j])
  {
    FirstFailureIsCut(n, hasRouter, targets, j, e);
    var os, before := Outcomes(n, hasRouter, targets), Outcomes(n, hasRouter, targets[..j]);
    assert before == os[..j];
    assert Cut(before) == j && before[..j] == os[..j];
  }

  /**
   One target more: nothing changes after an error; otherwise the block ends with the target's own error, if it
   fails, and its message joins the log if there is a router, it matches and nothing fails.
   */
  lemma OneMoreTarget(n: Notification, hasRouter: bool, targets: seq<WatchTarget>, t: WatchTarget)
    requires n.verdict == Ok(true)
    ensures BlockResult(n, hasRouter, []) == Ok(()) && BlockLog(n, hasRouter, []) == []
    ensures var i, more := |targets|, targets + [t];
            var result, log := BlockResult(n, hasRouter, targets), BlockLog(n, hasRouter, targets);
            var result', log' := BlockResult(n, hasRouter, more), BlockLog(n, hasRouter, more);
            var proof := n.prove(i, Transition(n.block.number, t.moduleName, t.functionName, t.targetChain));
            && (result.Err? ==> result' == result && log' == log)
            && (result.Ok? ==> forall e | FailsWith(n, hasRouter, i, t, e) :: result' == Err(e) && log' == log)
            && (result.Ok? && (forall e :: !FailsWith(n, hasRouter, i, t, e)) ==>
                  && result' == Ok(())
                  && log' == log + if hasRouter && Matched(n, i, t) then [Message(proof.value)] else [])
  {
    var i, more := |targets|, targets + [t];
    var os, o := Outcomes(n, hasRouter, targets), OutcomeOf(n, hasRouter, i, t);
    assert Outcomes(n, hasRouter, more) == os + [o];
    CutOfNext(os, o);
    DeliveredNext(os + [o], i);
    forall e ensures o == Abort(e) <==> FailsWith(n, hasRouter, i, t, e) {
      AbortsExactly(n, hasRouter, i, t, e);
    }
    DeliversExactly(n, i, t);
  }

  lemma {:induction false} CutOfNext(os: seq<Outcome>, o: Outcome)
    ensures Cut(os + [o]) == if Cut(os) < |os| || o.Abort? then Cut(os) else |os| + 1
    ensures (os + [o])[..Cut(os)] == os[..Cut(os)]
  {
    if os != [] && !os[0].Abort? {
      assert (os + [o])[1..] == os[1..] + [o];
      CutOfNext(os[1..], o);
    }
  }

  /**
   Of a block judged final, the targets before the first error that deliver are routed, each at its place, and
   nothing else is.
   */
  lemma RoutedExactly(n: Notification, targets: seq<WatchTarget>, i: nat)
    requires n.verdict == Ok(true) && i < |targets|
    ensures var os := Outcomes(n, true, targets);
            var log := BlockLog(n, true, targets);
            var place := DeliveringBefore(os, i);
            && |log| == DeliveringBefore(os, Cut(os))
            && (i < Cut(os) && os[i].Deliver? ==> place < |log| && log[place] == os[i].message)
  {
    var os := Outcomes(n, true, targets);
    DeliveredCount(os, Cut(os));
    if i < Cut(os) {
      DeliveredExactly(os, Cut(os), i);
    }
  }

  // ----- The worker

  /** A notification, placed where its handling takes the snapshot of targets, or a registration by another thread. */
  datatype Item = Notified(notification: Notification) | Registered(target: WatchTarget)

  ghost function RegisteredIn(stream: seq<Item>): seq<WatchTarget> {
    if stream == [] then [] else
      var last := stream[|stream| - 1];
      RegisteredIn(stream[..|stream| - 1]) + (if last.Registered? then [last.target] else [])
  }

  ghost function ItemLog(x: Item, hasRouter: bool, targets: seq<WatchTarget>): seq<Message> {
    match x
    case Notified(n) => BlockLog(n, hasRouter, targets)
    case Registered(_) => []
  }

  /** The concatenation of the blocks' logs, each over the targets registered before it. */
  ghost function RunLog(stream: seq<Item>, hasRouter: bool, targets: seq<WatchTarget>): seq<Message> {
    if stream == [] then [] else
      var init, last := stream[..|stream| - 1], stream[|stream| - 1];
      RunLog(init, hasRouter, targets) + ItemLog(last, hasRouter, targets + RegisteredIn(init))
  }

  class SSMPWorker {
    const observer: SSMPObserver

    constructor (observer: SSMPObserver)
      ensures this.observer == observer
    {
      this.observer := observer;
    }

    /** One item; `panicked` if its handling unwinds. */
    method Next(x: Item) returns (panicked: bool)
      modifies observer
      ensures observer.watchTargets == old(observer.watchTargets) + (if x.Registered? then [x.target] else [])
      ensures observer.routed == old(observer.routed) + ItemLog(x, observer.hasRouter, old(observer.watchTargets))
      ensures panicked <==>
                && x.Notified?
                && BlockResult(x.notification, observer.hasRouter, old(observer.watchTargets)) == Err(Panicked)
    {
      match x
      case Notified(n) =>
        var r := observer.HandleFinalityNotification(n);
        panicked := r == Err(Panicked);
      case Registered(t) =>
        observer.RegisterWatchTarget(t);
        panicked := false;
    }

    /**
     The stream loop: errors are logged and the next notification is handled; a panic ends the worker.  Of the
     stream exactly the items through the first panic, or all of them, are handled.
     */
    method RunWithFinalityStream(stream: seq<Item>) returns (handled: nat, panicked: bool)
      modifies observer
      ensures handled <= |stream|
      ensures !panicked ==> handled == |stream| && Quiet(stream, observer.hasRouter, old(observer.watchTargets))
      ensures panicked ==>
                && handled > 0
                && Quiet(stream[..handled - 1], observer.hasRouter, old(observer.watchTargets))
                && ItemPanics(stream[handled - 1], observer.hasRouter,
                              old(observer.watchTargets) + RegisteredIn(stream[..handled - 1]))
      ensures observer.watchTargets == old(observer.watchTargets) + RegisteredIn(stream[..handled])
      ensures observer.routed == old(observer.routed)
                                 + RunLog(stream[..handled], observer.hasRouter, old(observer.watchTargets))
    {
      ghost var targets, log := observer.watchTargets, observer.routed;
      for i := 0 to |stream|
        invariant Quiet(stream[..i], observer.hasRouter, targets)
        invariant observer.watchTargets == targets + RegisteredIn(stream[..i])
        invariant observer.routed == log + RunLog(stream[..i], observer.hasRouter, targets)
      {
        RunGrows(stream, i, observer.hasRouter, targets, log);
        panicked := Next(stream[i]);
        if panicked {
          return i + 1, true;
        }
      }
      assert stream[..|stream|] == stream;
      return |stream|, false;
    }
  }

  // ----- Panics

  ghost predicate ItemPanics(x: Item, hasRouter: bool, targets: seq<WatchTarget>) {
    x.Notified? && BlockResult(x.notification, hasRouter, targets) == Err(Panicked)
  }

  /** No item of the stream panics. */
  ghost predicate Quiet(stream: seq<Item>, hasRouter: bool, targets: seq<WatchTarget>) {
    if stream == [] then true else
      var init, last := stream[..|stream| - 1], stream[|stream| - 1];
      Quiet(init, hasRouter, targets) && !ItemPanics(last, hasRouter, targets + RegisteredIn(init))
  }

  /** The item at `i` is a notification whose handling, over the targets registered before it, ends in a panic. */
  ghost predicate PanicsAt(stream: seq<Item>, hasRouter: bool, targets: seq<WatchTarget>, i: int) {
    && 0 <= i < |stream| && stream[i].Notified?
    && BlockResult(stream[i].notification, hasRouter, targets + RegisteredIn(stream[..i])) == Err(Panicked)
  }

  lemma {:induction false} QuietExactly(stream: seq<Item>, hasRouter: bool, targets: seq<WatchTarget>)
    ensures Quiet(stream, hasRouter, targets) <==> forall i :: !PanicsAt(stream, hasRouter, targets, i)
    decreases |stream|
  {
    if stream != [] {
      var init, last := stream[..|stream| - 1], stream[|stream| - 1];
      QuietExactly(init, hasRouter, targets);
      forall i ensures PanicsAt(init, hasRouter, targets, i) <==>
                       i < |init| && PanicsAt(stream, hasRouter, targets, i)
      {
        if 0 <= i < |init| { assert init[..i] == stream[..i]; }
      }
      assert PanicsAt(stream, hasRouter, targets, |init|) <==>
             ItemPanics(last, hasRouter, targets + RegisteredIn(init));
    }
  }

  /** The target at `j` is reached, and an event of the block provokes its search. */
  ghost predicate ProvokedAt(n: Notification, hasRouter: bool, targets: seq<WatchTarget>, j: int) {
    && 0 <= j < |targets|
    && (forall k, e | 0 <= k < j :: !FailsWith(n, hasRouter, k, targets[k], e))
    && n.events(j).Some? && SomeProvokes(n.events(j).value, targets[j])
  }

  /**
   Handling panics exactly when the block is judged final and some target, reached before any error, cannot be
   searched for and meets an event that provokes it: any event for an empty name, one containing both names for
   an empty message hash.
   */
  lemma PanicExactly(n: Notification, hasRouter: bool, targets: seq<WatchTarget>)
    ensures BlockResult(n, hasRouter, targets) == Err(Panicked) <==>
            n.verdict == Ok(true) && exists j :: ProvokedAt(n, hasRouter, targets, j)
  {
    FailureExact(n, hasRouter, targets, Panicked);
    forall j ensures ProvokedAt(n, hasRouter, targets, j) <==> FirstFailure(n, hasRouter, targets, j, Panicked) {
    }
  }

  ghost predicate AllSearchable(targets: seq<WatchTarget>) {
    forall i :: 0 <= i < |targets| ==> Searchable(targets[i])
  }

  /** A worker whose targets, registered before or during the stream, can all be searched for never panics. */
  lemma {:induction false} SearchableIsQuiet(stream: seq<Item>, hasRouter: bool, targets: seq<WatchTarget>)
    requires AllSearchable(targets) && AllSearchable(RegisteredIn(stream))
    ensures Quiet(stream, hasRouter, targets)
  {
    if stream != [] {
      var init, last := stream[..|stream| - 1], stream[|stream| - 1];
      var before := RegisteredIn(init);
      assert forall i :: 0 <= i < |before| ==> before[i] == RegisteredIn(stream)[i];
      SearchableIsQuiet(init, hasRouter, targets);
      if last.Notified? {
        PanicExactly(last.notification, hasRouter, targets + before);
      }
    }
  }

  /** Handling the item at `i` extends the targets and the log as the prefixes of the stream say. */
  lemma RunGrows(stream: seq<Item>, i: nat, hasRouter: bool, targets: seq<WatchTarget>, log: seq<Message>)
    requires i < |stream|
    ensures var x, now := stream[i], targets + RegisteredIn(stream[..i]);
            && targets + RegisteredIn(stream[..i + 1]) == now + (if x.Registered? then [x.target] else [])
            && log + RunLog(stream[..i + 1], hasRouter, targets) ==
               log + RunLog(stream[..i], hasRouter, targets) + ItemLog(x, hasRouter, now)
            && (Quiet(stream[..i + 1], hasRouter, targets) <==>
                Quiet(stream[..i], hasRouter, targets) && !ItemPanics(x, hasRouter, now))
  {
    var done, x := stream[..i], stream[i];
    assert stream[..i + 1] == done + [x] && (done + [x])[..i] == done;
    RegisteredStep(done, x);
    RunStep(done, x, hasRouter, targets);
    Reassociate(targets, RegisteredIn(done), if x.Registered? then [x.target] else []);
    Reassociate(log, RunLog(done, hasRouter, targets), ItemLog(x, hasRouter, targets + RegisteredIn(done)));
  }

  lemma RegisteredStep(stream: seq<Item>, x: Item)
    ensures RegisteredIn(stream + [x]) == RegisteredIn(stream) + (if x.Registered? then [x.target] else [])
  {
    assert (stream + [x])[..|stream|] == stream;
  }

  lemma {:induction false} RegisteredInConcat(a: seq<Item>, b: seq<Item>)
    ensures RegisteredIn(a + b) == RegisteredIn(a) + RegisteredIn(b)
    decreases |b|
  {
    if b == [] {
      assert a + b == a;
    } else {
      RegisteredInConcat(a, b[..|b| - 1]);
      assert (a + b)[..|a + b| - 1] == a + b[..|b| - 1];
    }
  }

  lemma RunStep(stream: seq<Item>, x: Item, hasRouter: bool, targets: seq<WatchTarget>)
    ensures RunLog(stream + [x], hasRouter, targets) ==
            RunLog(stream, hasRouter, targets) + ItemLog(x, hasRouter, targets + RegisteredIn(stream))
  {
    assert (stream + [x])[..|stream|] == stream;
  }

  lemma Reassociate<T>(a: seq<T>, b: seq<T>, c: seq<T>)
    ensures (a + b) + c == a + (b + c)
  {
  }

  /** A run splits at any point: what follows depends on what came before only through the registered targets. */
  lemma {:induction false} RunSplits(a: seq<Item>, b: seq<Item>, hasRouter: bool, targets: seq<WatchTarget>)
    ensures RunLog(a + b, hasRouter, targets) ==
            RunLog(a, hasRouter, targets) + RunLog(b, hasRouter, targets + RegisteredIn(a))
    decreases |b|
  {
    if b == [] {
      assert a + b == a;
    } else {
      var init, last := b[..|b| - 1], b[|b| - 1];
      var targets' := targets + RegisteredIn(a);
      RunSplits(a, init, hasRouter, targets);
      RunStep(a + init, last, hasRouter, targets);
      RunStep(init, last, hasRouter, targets');
      RegisteredInConcat(a, init);
      Reassociate(targets, RegisteredIn(a), RegisteredIn(init));
      Reassociate(a, init, [last]);
      assert init + [last] == b;
      Reassociate(RunLog(a, hasRouter, targets), RunLog(init, hasRouter, targets'),
                  ItemLog(last, hasRouter, targets' + RegisteredIn(init)));
    }
  }

  /**
   An error on one block never suppresses later blocks: around a notification the log is the log before it,
   the block's own part, and a remainder in which neither the notification nor its outcome appears.
   */
  lemma ErrorsDoNotSpread(before: seq<Item>, n: Notification, after: seq<Item>, hasRouter: bool,
                          targets: seq<WatchTarget>)
    ensures RunLog(before + [Notified(n)] + after, hasRouter, targets) ==
            RunLog(before, hasRouter, targets)
            + BlockLog(n, hasRouter, targets + RegisteredIn(before))
            + RunLog(after, hasRouter, targets + RegisteredIn(before))
  {
    var through := before + [Notified(n)];
    RunStep(before, Notified(n), hasRouter, targets);
    RunSplits(through, after, hasRouter, targets);
    assert through[..|before|] == before;
    assert RegisteredIn(through) == RegisteredIn(before);
  }

  /** Every routed message belongs to some notification of the stream, judged final, and its snapshot. */
  lemma {:induction false} MessageHasSource(stream: seq<Item>, hasRouter: bool, targets: seq<WatchTarget>, m: Message)
    returns (i: nat)
    requires m in RunLog(stream, hasRouter, targets)
    ensures i < |stream| && stream[i].Notified?
    ensures stream[i].notification.verdict == Ok(true)
    ensures m in BlockLog(stream[i].notification, hasRouter, targets + RegisteredIn(stream[..i]))
    decreases |stream|
  {
    var init, last := stream[..|stream| - 1], stream[|stream| - 1];
    if m in RunLog(init, hasRouter, targets) {
      i := MessageHasSource(init, hasRouter, targets, m);
      assert init[..i] == stream[..i];
    } else {
      i := |stream| - 1;
    }
  }
}
