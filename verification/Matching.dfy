/** Matching a block's events against a watch target (src/observer/mod.rs). */
module Matching {
  import opened Common

  datatype WatchTarget = WatchTarget(
    moduleName: Bytes,
    functionName: Bytes,
    messageHash: Option<Bytes>,
    targetChain: Bytes
  )

  /** What a search comes to.  Asking for windows of length zero panics. */
  datatype Search = Answer(found: bool) | Panic

  predicate Searchable(t: WatchTarget) {
    t.moduleName != [] && t.functionName != [] && t.messageHash != Some([])
  }

  predicate WindowAt(bytes: Bytes, pattern: Bytes, i: nat) {
    i + |pattern| <= |bytes| && bytes[i..i + |pattern|] == pattern
  }

  predicate ContainsWindow(bytes: Bytes, pattern: Bytes)
    requires pattern != []
  {
    exists i: nat | i <= |bytes| :: WindowAt(bytes, pattern, i)
  }

  function GenericEventMatch(event: Bytes, t: WatchTarget): Search {
    if t.moduleName == [] || t.functionName == [] then Panic else
      var containsModule := ContainsWindow(event, t.moduleName);
      var containsFunction := ContainsWindow(event, t.functionName);
      if !containsModule || !containsFunction then Answer(false)
      else
        match t.messageHash
        case Some(hash) => if hash == [] then Panic else Answer(ContainsWindow(event, hash))
        case None => Answer(true)
  }

  // ----- Specification

  ghost predicate Occurs(pattern: Bytes, bytes: Bytes) {
    exists before, after :: bytes == before + pattern + after
  }

  /** One event splits around the module name, around the function name and around the hash if one is given. */
  ghost predicate Mentions(event: Bytes, t: WatchTarget) {
    && Occurs(t.moduleName, event)
    && Occurs(t.functionName, event)
    && (t.messageHash.Some? ==> Occurs(t.messageHash.value, event))
  }

  ghost predicate SomeMention(events: seq<Bytes>, t: WatchTarget) {
    exists e <- events :: Mentions(e, t)
  }

  /** An empty name panics on any event, an empty message hash on one that contains both names. */
  ghost predicate Provokes(event: Bytes, t: WatchTarget) {
    && !Searchable(t)
    && (t.moduleName != [] && t.functionName != [] ==> Occurs(t.moduleName, event) && Occurs(t.functionName, event))
  }

  ghost predicate SomeProvokes(events: seq<Bytes>, t: WatchTarget) {
    exists e <- events :: Provokes(e, t)
  }

  lemma WindowIsOccurrence(bytes: Bytes, pattern: Bytes)
    requires pattern != []
    ensures ContainsWindow(bytes, pattern) <==> Occurs(pattern, bytes)
  {
    if ContainsWindow(bytes, pattern) {
      var i: nat :| i <= |bytes| && WindowAt(bytes, pattern, i);
      assert bytes == bytes[..i] + pattern + bytes[i + |pattern|..];
    }
    if Occurs(pattern, bytes) {
      var before, after :| bytes == before + pattern + after;
      assert WindowAt(bytes, pattern, |before|);
    }
  }

  /** The byte search decides exactly the splitting specification, and panics on exactly the provoking events. */
  lemma MatchIsMention(event: Bytes, t: WatchTarget)
    ensures GenericEventMatch(event, t) == Answer(true) <==> Searchable(t) && Mentions(event, t)
    ensures GenericEventMatch(event, t) == Panic <==> Provokes(event, t)
  {
    if t.moduleName != [] && t.functionName != [] {
      WindowIsOccurrence(event, t.moduleName);
      WindowIsOccurrence(event, t.functionName);
      if t.messageHash.Some? && t.messageHash.value != [] {
        WindowIsOccurrence(event, t.messageHash.value);
      }
    }
  }

  lemma OccursInLonger(pattern: Bytes, bytes: Bytes, prefix: Bytes, suffix: Bytes)
    requires Occurs(pattern, bytes)
    ensures Occurs(pattern, prefix + bytes + suffix)
  {
    var before, after :| bytes == before + pattern + after;
    assert prefix + bytes + suffix == (prefix + before) + pattern + (after + suffix);
  }

  /** A match survives embedding the event's bytes in longer ones. */
  lemma MatchSurvivesEmbedding(event: Bytes, t: WatchTarget, prefix: Bytes, suffix: Bytes)
    requires GenericEventMatch(event, t) == Answer(true)
    ensures GenericEventMatch(prefix + event + suffix, t) == Answer(true)
  {
    MatchIsMention(event, t);
    MatchIsMention(prefix + event + suffix, t);
    OccursInLonger(t.moduleName, event, prefix, suffix);
    OccursInLonger(t.functionName, event, prefix, suffix);
    if t.messageHash.Some? {
      OccursInLonger(t.messageHash.value, event, prefix, suffix);
    }
  }

  /** The loop over a block's events: true exactly when one single event mentions everything. */
  method MatchesWatchTarget(events: seq<Bytes>, t: WatchTarget) returns (r: Search)
    ensures r == Answer(true) <==> Searchable(t) && SomeMention(events, t)
    ensures r == Panic <==> SomeProvokes(events, t)
  {
    for i := 0 to |events|
      invariant !(Searchable(t) && SomeMention(events[..i], t)) && !SomeProvokes(events[..i], t)
    {
      MatchIsMention(events[i], t);
      match GenericEventMatch(events[i], t) {
        case Panic =>
          return Panic;
        case Answer(found) =>
          if found {
            return Answer(true);
          }
      }
      assert events[..i + 1] == events[..i] + [events[i]];
    }
    assert events[..|events|] == events;
    return Answer(false);
  }
}
