/**
 The client the finality engine reads: an advancing chain seen as a history of snapshots.

 Hashing is collision-free, so one ledger fixes the header behind every hash; a snapshot only says which
 headers the client holds at that moment.  Reads of one call may hit different snapshots.
 */
module Chain {
  import opened Common
  import opened Voters

  type Hash = nat

  datatype Header = Header(number: nat, parent: Hash)

  /** All headers that ever exist, and the largest value of the chain's block number type. */
  datatype Ledger = Ledger(headers: map<Hash, Header>, maxNumber: nat)

  datatype World = World(
    held: set<Hash>,
    finalizedHash: Hash,
    finalizedNumber: nat,
    bestNumber: nat,
    justifications: map<Hash, Bytes>,
    voters: VoterSet,
    clock: nat,
    headerFault: bool,
    justificationFault: bool
  )

  type History = seq<World>

  ghost predicate IsLedger(l: Ledger) {
    && U32_MAX <= l.maxNumber <= U64_MAX
    && (forall h <- l.headers :: l.headers[h].number <= l.maxNumber)
    && (forall h <- l.headers :: l.headers[h].parent in l.headers ==>
          l.headers[h].number == l.headers[l.headers[h].parent].number + 1)
  }

  /** The hash `steps` parents above `h`, if every header on the way exists. */
  function Walk(l: Ledger, h: Hash, steps: nat): Option<Hash>
    decreases steps
  {
    if h !in l.headers then None
    else if steps == 0 then Some(h)
    else Walk(l, l.headers[h].parent, steps - 1)
  }

  /** `a` is `d` or an ancestor of it. */
  ghost predicate Descends(l: Ledger, a: Hash, d: Hash) {
    exists steps: nat :: Walk(l, d, steps) == Some(a)
  }

  ghost predicate OneChain(l: Ledger, a: Hash, b: Hash) {
    Descends(l, a, b) || Descends(l, b, a)
  }

  /** What the client guarantees at each moment: below its finalized height it holds canonical headers only. */
  ghost predicate IsWorld(l: Ledger, w: World) {
    && w.held <= l.headers.Keys
    && w.finalizedHash in w.held
    && l.headers[w.finalizedHash].number == w.finalizedNumber
    && w.finalizedNumber <= w.bestNumber <= l.maxNumber
    && (forall h <- w.held :: l.headers[h].number <= w.finalizedNumber ==> Descends(l, h, w.finalizedHash))
  }

  /** Finality only extends, canonical headers are kept, and time does not run backwards. */
  ghost predicate Advances(l: Ledger, w: World, w': World) {
    && Descends(l, w.finalizedHash, w'.finalizedHash)
    && (forall h <- w.held :: Descends(l, h, w.finalizedHash) ==> h in w'.held)
    && w.clock <= w'.clock
  }

  ghost predicate IsHistory(l: Ledger, hs: History) {
    && IsLedger(l)
    && (forall i :: 0 <= i < |hs| ==> IsWorld(l, hs[i]))
    && (forall i, j :: 0 <= i && j == i + 1 && j < |hs| ==> Advances(l, hs[i], hs[j]))
  }

  function HeaderOf(l: Ledger, w: World, h: Hash): Option<Header> {
    if h in w.held && h in l.headers then Some(l.headers[h]) else None
  }

  // ----- Ancestry

  lemma {:induction false} WalkCompose(l: Ledger, h: Hash, m: nat, n: nat)
    requires Walk(l, h, m).Some?
    ensures Walk(l, h, m + n) == Walk(l, Walk(l, h, m).value, n)
    decreases m
  {
    if m > 0 { WalkCompose(l, l.headers[h].parent, m - 1, n); }
  }

  lemma {:induction false} WalkNumber(l: Ledger, h: Hash, m: nat)
    requires IsLedger(l) && Walk(l, h, m).Some?
    ensures Walk(l, h, m).value in l.headers && h in l.headers
    ensures l.headers[h].number == l.headers[Walk(l, h, m).value].number + m
    decreases m
  {
    if m > 0 { WalkNumber(l, l.headers[h].parent, m - 1); }
  }

  lemma DescendsTransitive(l: Ledger, a: Hash, b: Hash, c: Hash)
    requires Descends(l, a, b) && Descends(l, b, c)
    ensures Descends(l, a, c)
  {
    var n: nat :| Walk(l, b, n) == Some(a);
    var m: nat :| Walk(l, c, m) == Some(b);
    WalkCompose(l, c, m, n);
  }

  lemma DescendsNumber(l: Ledger, a: Hash, d: Hash)
    requires IsLedger(l) && Descends(l, a, d)
    ensures a in l.headers && d in l.headers && l.headers[a].number <= l.headers[d].number
    ensures l.headers[a].number == l.headers[d].number ==> a == d
  {
    var m: nat :| Walk(l, d, m) == Some(a);
    WalkNumber(l, d, m);
  }

  /** The ancestors of one block are linearly ordered. */
  lemma AncestorsAreOneChain(l: Ledger, a: Hash, b: Hash, d: Hash)
    requires Descends(l, a, d) && Descends(l, b, d)
    ensures OneChain(l, a, b)
  {
    var m: nat :| Walk(l, d, m) == Some(a);
    var n: nat :| Walk(l, d, n) == Some(b);
    if m <= n {
      WalkCompose(l, d, m, n - m);
    } else {
      WalkCompose(l, d, n, m - n);
    }
  }

  // ----- Histories

  /** The step guarantees hold between any two moments. */
  lemma {:induction false} Later(l: Ledger, hs: History, i: nat, j: nat)
    requires IsHistory(l, hs) && i <= j < |hs|
    ensures Advances(l, hs[i], hs[j])
    ensures hs[i].finalizedNumber <= hs[j].finalizedNumber
    decreases j
  {
    if i == j {
      assert Walk(l, hs[i].finalizedHash, 0) == Some(hs[i].finalizedHash);
    } else {
      Later(l, hs, i, j - 1);
      var w, mid, w' := hs[i], hs[j - 1], hs[j];
      assert Advances(l, mid, w');
      DescendsTransitive(l, w.finalizedHash, mid.finalizedHash, w'.finalizedHash);
      DescendsNumber(l, mid.finalizedHash, w'.finalizedHash);
      forall h | h in w.held && Descends(l, h, w.finalizedHash) ensures h in w'.held {
        DescendsTransitive(l, h, w.finalizedHash, mid.finalizedHash);
      }
    }
  }

  /** A header held at or below the finalized height is on every later finalized chain, and stays held. */
  lemma CanonicalForever(l: Ledger, hs: History, h: Hash, i: nat, j: nat)
    requires IsHistory(l, hs) && i <= j < |hs|
    requires h in hs[i].held && l.headers[h].number <= hs[i].finalizedNumber
    ensures Descends(l, h, hs[j].finalizedHash) && h in hs[j].held
  {
    Later(l, hs, i, j);
    DescendsTransitive(l, h, hs[i].finalizedHash, hs[j].finalizedHash);
  }
}
