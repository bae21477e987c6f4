/** From a routed message back to finality: the observer's runs over verdicts given by the finality engine. */
module EndToEnd {
  import opened Chain
  import opened Finality
  import opened Agreement
  import opened Matching
  import opened Observer

  datatype Judge = Judge(env: Env, params: Params, config: Config)

  /** The notification's verdict is what is_final answers when its reads happen at `moments`. */
  predicate JudgedAt(judge: Judge, hs: History, n: Notification, moments: CallReads) {
    && CallInRange(moments, |hs|) && CallInOrder(moments)
    && n.verdict == IsFinal(judge.env, judge.params, judge.config, hs, n.block, moments)
  }

  /** Every notification of the stream is judged by one engine against one history. */
  ghost predicate JudgedStream(judge: Judge, hs: History, stream: seq<Item>, moments: seq<CallReads>) {
    && |moments| == |stream|
    && forall i :: 0 <= i < |stream| && stream[i].Notified? ==> JudgedAt(judge, hs, stream[i].notification, moments[i])
  }

  /** The message was routed for the notification at position `i` of the stream. */
  ghost predicate RoutedFor(stream: seq<Item>, hasRouter: bool, targets: seq<WatchTarget>, m: Message, i: nat) {
    && i < |stream| && stream[i].Notified?
    && m in BlockLog(stream[i].notification, hasRouter, targets + RegisteredIn(stream[..i]))
  }

  /**
   Safety over whole runs: every message ever routed was routed for a block that is finalized, with all
   its required confirmations, when its verdict is given and at every later moment of the history.
   */
  lemma RoutedMeansFinalized(judge: Judge, hs: History, stream: seq<Item>, moments: seq<CallReads>,
                             hasRouter: bool, targets: seq<WatchTarget>, m: Message) returns (i: nat)
    requires IsHistory(judge.env.ledger, hs) && JudgedStream(judge, hs, stream, moments)
    requires judge.config.minConfirmations >= 1
    requires m in RunLog(stream, hasRouter, targets)
    ensures RoutedFor(stream, hasRouter, targets, m, i)
    ensures forall k :: moments[i].best <= k < |hs| ==>
              stream[i].notification.block.number + judge.config.minConfirmations <= hs[k].finalizedNumber
  {
    i := MessageHasSource(stream, hasRouter, targets, m);
    var n := stream[i].notification;
    forall k | moments[i].best <= k < |hs|
      ensures n.block.number + judge.config.minConfirmations <= hs[k].finalizedNumber
    {
      VerdictSound(judge.env, judge.params, judge.config, hs, n.block, moments[i], k);
    }
  }

  /** With a threshold above 0.6 any two messages of a run were routed for blocks of one chain. */
  lemma RoutedBlocksAgree(judge: Judge, hs: History, stream: seq<Item>, moments: seq<CallReads>,
                          hasRouter: bool, targets: seq<WatchTarget>, m: Message, m': Message) returns (i: nat, j: nat)
    requires IsHistory(judge.env.ledger, hs) && JudgedStream(judge, hs, stream, moments)
    requires judge.config.confidenceThreshold > 0.6
    requires m in RunLog(stream, hasRouter, targets) && m' in RunLog(stream, hasRouter, targets)
    ensures RoutedFor(stream, hasRouter, targets, m, i) && RoutedFor(stream, hasRouter, targets, m', j)
    ensures OneChain(judge.env.ledger, stream[i].notification.block.hash, stream[j].notification.block.hash)
  {
    i := MessageHasSource(stream, hasRouter, targets, m);
    j := MessageHasSource(stream, hasRouter, targets, m');
    var a, b := stream[i].notification, stream[j].notification;
    HighThresholdAgrees(judge.params, judge.config, Scenario(judge.env, hs, a.block, moments[i], b.block, moments[j]));
  }
}
