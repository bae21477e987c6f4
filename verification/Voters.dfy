/**
 The weighted vote over a justification's precommits (src/finality/mod.rs, verify_justification).

 Signature checks and codecs are uninterpreted functions.  The voter set is the map the GRANDPA
 library is assumed to build: positive weights whose exact sum fits in 64 bits.
 */
module Voters {
  import opened Common

  type AuthorityId = nat

  datatype Precommit = Precommit(targetHash: nat, targetNumber: nat)

  datatype SignedPrecommit = SignedPrecommit(precommit: Precommit, signature: Bytes, id: AuthorityId)

  datatype Justification = Justification(round: nat, precommits: seq<SignedPrecommit>)

  datatype Primitives = Primitives(
    encode: Precommit -> Bytes,
    verify: (Bytes, Bytes, AuthorityId) -> bool,
    decode: Bytes -> Option<Justification>
  )

  datatype VoterTable = VoterTable(weights: map<AuthorityId, nat>, total: nat)

  ghost function SumOver(weights: map<AuthorityId, nat>, ids: set<AuthorityId>): nat
    requires ids <= weights.Keys
  {
    if ids == {} then 0 else
      var id :| id in ids;
      weights[id] + SumOver(weights, ids - {id})
  }

  ghost predicate IsVoterSet(v: VoterTable) {
    && v.weights != map[]
    && (forall id <- v.weights :: v.weights[id] > 0)
    && v.total == SumOver(v.weights, v.weights.Keys)
    && v.total <= U64_MAX
  }

  type VoterSet = v: VoterTable | IsVoterSet(v)
    witness (SumOfOne(map[0 := 1], 0); VoterTable(map[0 := 1], 1))

  /** The smallest voter set: one authority of weight one. */
  function OneVoter(): VoterSet {
    SumOfOne(map[0 := 1], 0);
    VoterTable(map[0 := 1], 1)
  }

  // ----- The vote

  predicate Counted(prims: Primitives, v: VoterTable, p: SignedPrecommit) {
    p.id in v.weights && prims.verify(prims.encode(p.precommit), p.signature, p.id)
  }

  function Contribution(prims: Primitives, v: VoterTable, p: SignedPrecommit): nat {
    if Counted(prims, v, p) then v.weights[p.id] else 0
  }

  /** The unclipped sum of the weights of all counted precommits, repeats included. */
  function ExactWeight(prims: Primitives, v: VoterTable, ps: seq<SignedPrecommit>): nat {
    if ps == [] then 0
    else ExactWeight(prims, v, ps[..|ps| - 1]) + Contribution(prims, v, ps[|ps| - 1])
  }

  function SignedWeight(prims: Primitives, v: VoterTable, ps: seq<SignedPrecommit>): nat {
    Saturated(U64_MAX, ExactWeight(prims, v, ps))
  }

  function Rate(prims: Primitives, v: VoterTable, ps: seq<SignedPrecommit>): real {
    if v.total > 0 then SignedWeight(prims, v, ps) as real / v.total as real else 0.0
  }

  /** The accumulation loop: adding with saturation at each step clips the exact sum once. */
  method VerifyJustification(prims: Primitives, v: VoterSet, ps: seq<SignedPrecommit>, minParticipation: real)
    returns (accepted: bool, rate: real)
    ensures rate == Rate(prims, v, ps)
    ensures accepted <==> rate >= minParticipation
  {
    var signedWeight := 0;
    for i := 0 to |ps|
      invariant signedWeight == SignedWeight(prims, v, ps[..i])
    {
      assert ps[..i + 1][..i] == ps[..i];
      if ps[i].id in v.weights {
        if prims.verify(prims.encode(ps[i].precommit), ps[i].signature, ps[i].id) {
          signedWeight := Saturated(U64_MAX, signedWeight + v.weights[ps[i].id]);
        }
      }
    }
    assert ps[..|ps|] == ps;
    rate := if v.total > 0 then signedWeight as real / v.total as real else 0.0;
    accepted := rate >= minParticipation;
  }

  // ----- The vote, one precommit at a time

  lemma NoVotesNoRate(prims: Primitives, v: VoterTable)
    ensures Rate(prims, v, []) == 0.0
  {
  }

  /**
   A precommit of no member, or whose signature does not verify, changes nothing.  Any other raises the rate by
   its signer's share, until the 64-bit sum is full.
   */
  lemma RateOfNext(prims: Primitives, v: VoterSet, ps: seq<SignedPrecommit>, p: SignedPrecommit)
    ensures var before, after, total := Rate(prims, v, ps), Rate(prims, v, ps + [p]), v.total as real;
            if p.id in v.weights && prims.verify(prims.encode(p.precommit), p.signature, p.id) then
              var weight := v.weights[p.id] as real;
              if before * total + weight <= 0xFFFF_FFFF_FFFF_FFFF as real
              then after == before + weight / total
              else after * total == 0xFFFF_FFFF_FFFF_FFFF as real
            else after == before
  {
    TotalPositive(v);
    var before, more := SignedWeight(prims, v, ps), Contribution(prims, v, p);
    assert SignedWeight(prims, v, ps + [p]) == Saturated(U64_MAX, before + more) by {
      assert (ps + [p])[..|ps|] == ps;
    }
    ShareGrows(before, more, Saturated(U64_MAX, before + more), v.total);
  }

  lemma ShareGrows(before: nat, more: nat, after: nat, total: nat)
    requires total > 0 && after == Saturated(0xFFFF_FFFF_FFFF_FFFF, before + more)
    ensures var a, b, t := before as real / total as real, after as real / total as real, total as real;
            && a * t == before as real
            && (if a * t + more as real <= 0xFFFF_FFFF_FFFF_FFFF as real then b == a + more as real / t
                else b * t == 0xFFFF_FFFF_FFFF_FFFF as real)
  {
    ShareTimesWhole(before, total);
    ShareTimesWhole(after, total);
    ShareOfSum(before, more, total);
  }

  // ----- Order and growth

  lemma {:induction false} WeightOfConcat(prims: Primitives, v: VoterTable, ps: seq<SignedPrecommit>,
                                          qs: seq<SignedPrecommit>)
    ensures ExactWeight(prims, v, ps + qs) == ExactWeight(prims, v, ps) + ExactWeight(prims, v, qs)
  {
    if qs == [] {
      assert ps + qs == ps;
    } else {
      var init := qs[..|qs| - 1];
      WeightOfConcat(prims, v, ps, init);
      assert (ps + qs)[..|ps + qs| - 1] == ps + init;
    }
  }

  /** Appending precommits never lowers the rate. */
  lemma RateMonotone(prims: Primitives, v: VoterSet, ps: seq<SignedPrecommit>, qs: seq<SignedPrecommit>)
    ensures Rate(prims, v, ps) <= Rate(prims, v, ps + qs)
  {
    WeightOfConcat(prims, v, ps, qs);
    var a, b := SignedWeight(prims, v, ps), SignedWeight(prims, v, ps + qs);
    if v.total > 0 {
      DivideMonotone(a as real, b as real, v.total as real);
    }
  }

  /** The order of the precommits is irrelevant. */
  lemma RateIgnoresOrder(prims: Primitives, v: VoterTable, ps: seq<SignedPrecommit>, qs: seq<SignedPrecommit>)
    requires multiset(ps) == multiset(qs)
    ensures Rate(prims, v, ps) == Rate(prims, v, qs)
  {
    WeightIgnoresOrder(prims, v, ps, qs);
  }

  lemma {:induction false} WeightIgnoresOrder(prims: Primitives, v: VoterTable, ps: seq<SignedPrecommit>,
                                              qs: seq<SignedPrecommit>)
    requires multiset(ps) == multiset(qs)
    ensures ExactWeight(prims, v, ps) == ExactWeight(prims, v, qs)
    decreases |ps|
  {
    if ps == [] {
      assert |multiset(qs)| == 0;
      assert qs == [];
    } else {
      var init, last := ps[..|ps| - 1], ps[|ps| - 1];
      var before, after := TakeOut(ps, qs);
      WeightIgnoresOrder(prims, v, init, before + after);
      WeightOfConcat(prims, v, before, after);
      WeightOfConcat(prims, v, before + [last], after);
      assert (before + [last])[..|before|] == before;
    }
  }

  /** The last element of `ps` occurs in every rearrangement `qs`; without it the two still agree. */
  lemma TakeOut<T>(ps: seq<T>, qs: seq<T>) returns (before: seq<T>, after: seq<T>)
    requires ps != [] && multiset(ps) == multiset(qs)
    ensures qs == before + [ps[|ps| - 1]] + after
    ensures multiset(ps[..|ps| - 1]) == multiset(before + after)
  {
    var last := ps[|ps| - 1];
    assert ps == ps[..|ps| - 1] + [last];
    assert last in multiset(qs);
    var i :| 0 <= i < |qs| && qs[i] == last;
    before, after := qs[..i], qs[i + 1..];
    assert qs == before + [last] + after;
    assert multiset(ps[..|ps| - 1]) == multiset(ps) - multiset{last};
    assert multiset(before + after) == multiset(qs) - multiset{last};
  }

  // ----- Signers

  ghost function Signers(prims: Primitives, v: VoterTable, ps: seq<SignedPrecommit>): (ids: set<AuthorityId>)
    ensures ids <= v.weights.Keys
  {
    set i | 0 <= i < |ps| && Counted(prims, v, ps[i]) :: ps[i].id
  }

  ghost predicate DistinctSigners(prims: Primitives, v: VoterTable, ps: seq<SignedPrecommit>) {
    forall i, j :: 0 <= i < j < |ps| && Counted(prims, v, ps[i]) && Counted(prims, v, ps[j]) ==> ps[i].id != ps[j].id
  }

  /** A signer is a member with at least one precommit whose signature verifies as its own. */
  lemma SignersExactly(prims: Primitives, v: VoterTable, ps: seq<SignedPrecommit>, id: AuthorityId)
    ensures id in Signers(prims, v, ps) <==>
            exists i :: && 0 <= i < |ps| && ps[i].id == id && id in v.weights
                        && prims.verify(prims.encode(ps[i].precommit), ps[i].signature, id)
  {
  }

  /** Signers are distinct if no two different places hold such precommits of one member. */
  lemma DistinctExactly(prims: Primitives, v: VoterTable, ps: seq<SignedPrecommit>)
    ensures DistinctSigners(prims, v, ps) <==>
            forall i, j | 0 <= i < |ps| && 0 <= j < |ps| && i != j && ps[i].id == ps[j].id && ps[i].id in v.weights ::
              !(prims.verify(prims.encode(ps[i].precommit), ps[i].signature, ps[i].id) &&
                prims.verify(prims.encode(ps[j].precommit), ps[j].signature, ps[j].id))
  {
  }

  /** Repeats only add: the sum exceeds the signers' own weight exactly when some signer repeats. */
  lemma {:induction false} WeightVersusSigners(prims: Primitives, v: VoterSet, ps: seq<SignedPrecommit>)
    ensures SumOver(v.weights, Signers(prims, v, ps)) <= ExactWeight(prims, v, ps)
    ensures ExactWeight(prims, v, ps) == SumOver(v.weights, Signers(prims, v, ps)) <==> DistinctSigners(prims, v, ps)
  {
    if ps == [] {
      assert Signers(prims, v, ps) == {};
    } else {
      var init, last := ps[..|ps| - 1], ps[|ps| - 1];
      WeightVersusSigners(prims, v, init);
      SignersOfExtension(prims, v, ps);
      var before, all := Signers(prims, v, init), Signers(prims, v, ps);
      if Counted(prims, v, last) && last.id !in before {
        SumWithout(v.weights, all, last.id);
        assert all - {last.id} == before;
      } else {
        assert all == before;
      }
    }
  }

  lemma SignersOfExtension(prims: Primitives, v: VoterTable, ps: seq<SignedPrecommit>)
    requires ps != []
    ensures var init, last := ps[..|ps| - 1], ps[|ps| - 1];
            && Signers(prims, v, ps) == Signers(prims, v, init) + (if Counted(prims, v, last) then {last.id} else {})
            && (DistinctSigners(prims, v, ps) <==>
                DistinctSigners(prims, v, init) && (Counted(prims, v, last) ==> last.id !in Signers(prims, v, init)))
  {
    var init, last := ps[..|ps| - 1], ps[|ps| - 1];
    var all, before := Signers(prims, v, ps), Signers(prims, v, init);
    forall id | id in all ensures id in before || (Counted(prims, v, last) && id == last.id) {
      var i :| 0 <= i < |ps| && Counted(prims, v, ps[i]) && ps[i].id == id;
      if i < |init| { assert init[i].id == id; }
    }
    forall id | id in before ensures id in all {
      var i :| 0 <= i < |init| && Counted(prims, v, init[i]) && init[i].id == id;
      assert ps[i].id == id;
    }
    if Counted(prims, v, last) {
      assert ps[|ps| - 1].id in all;
    }
    if DistinctSigners(prims, v, init) && (Counted(prims, v, last) ==> last.id !in before) {
      forall i, j | 0 <= i < j < |ps| && Counted(prims, v, ps[i]) && Counted(prims, v, ps[j])
        ensures ps[i].id != ps[j].id
      {
        assert init[i] == ps[i];
        if j < |init| { assert init[j] == ps[j]; }
      }
    }
    if DistinctSigners(prims, v, ps) && Counted(prims, v, last) {
      assert forall i :: 0 <= i < |init| ==> init[i] == ps[i];
    }
    if DistinctSigners(prims, v, ps) {
      forall i, j | 0 <= i < j < |init| && Counted(prims, v, init[i]) && Counted(prims, v, init[j])
        ensures init[i].id != init[j].id
      {
        assert init[i] == ps[i] && init[j] == ps[j];
      }
    }
  }

  /**
   The accumulated weight is the weight of the set of signers exactly when no signer repeats; the only
   other case is a signer set that already weighs the 64-bit maximum.
   */
  lemma SignedWeightIsSignerWeight(prims: Primitives, v: VoterSet, ps: seq<SignedPrecommit>)
    ensures var signers := SumOver(v.weights, Signers(prims, v, ps));
            SignedWeight(prims, v, ps) == signers <==> DistinctSigners(prims, v, ps) || signers == U64_MAX
  {
    WeightVersusSigners(prims, v, ps);
    SumMonotone(v.weights, Signers(prims, v, ps), v.weights.Keys);
  }

  /** With distinct signers nothing saturates and the rate is the signers' share of the total. */
  lemma RateIsShare(prims: Primitives, v: VoterSet, ps: seq<SignedPrecommit>)
    requires DistinctSigners(prims, v, ps)
    ensures v.total > 0 && ExactWeight(prims, v, ps) <= v.total
    ensures Rate(prims, v, ps) == SumOver(v.weights, Signers(prims, v, ps)) as real / v.total as real
    ensures 0.0 <= Rate(prims, v, ps) <= 1.0
  {
    TotalPositive(v);
    WeightVersusSigners(prims, v, ps);
    SumMonotone(v.weights, Signers(prims, v, ps), v.weights.Keys);
    ShareInUnit(ExactWeight(prims, v, ps), v.total);
  }

  /**
   Two justifications that both reach 0.67 with distinct signers share signers holding at least
   2 * 0.67 - 1 of the total weight, which is more than a third.
   */
  lemma QuorumIntersection(prims: Primitives, v: VoterSet, ps: seq<SignedPrecommit>, qs: seq<SignedPrecommit>)
    requires DistinctSigners(prims, v, ps) && DistinctSigners(prims, v, qs)
    requires Rate(prims, v, ps) >= 0.67 && Rate(prims, v, qs) >= 0.67
    ensures var shared := SumOver(v.weights, Signers(prims, v, ps) * Signers(prims, v, qs));
            shared as real >= 0.34 * v.total as real && 3 * shared > v.total
  {
    QuorumWeight(prims, v, ps);
    QuorumWeight(prims, v, qs);
    TotalPositive(v);
    var a, b := Signers(prims, v, ps), Signers(prims, v, qs);
    InclusionExclusion(v.weights, a, b);
    SumMonotone(v.weights, a + b, v.weights.Keys);
  }

  lemma QuorumWeight(prims: Primitives, v: VoterSet, ps: seq<SignedPrecommit>)
    requires DistinctSigners(prims, v, ps) && Rate(prims, v, ps) >= 0.67
    ensures SumOver(v.weights, Signers(prims, v, ps)) as real >= 0.67 * v.total as real
  {
    RateIsShare(prims, v, ps);
    ShareAtLeast(SumOver(v.weights, Signers(prims, v, ps)), v.total, 0.67);
  }

  function Repeated(p: SignedPrecommit, n: nat): (ps: seq<SignedPrecommit>)
    ensures |ps| == n && forall i :: 0 <= i < n ==> ps[i] == p
  {
    if n == 0 then [] else Repeated(p, n - 1) + [p]
  }

  /**
   The distinctness hypothesis cannot be dropped: copies of one counted precommit, however light, reach full
   participation, exactly when their number times its weight reaches the total.
   */
  lemma RepeatedSignerReachesFullRate(prims: Primitives, v: VoterSet, p: SignedPrecommit, n: nat)
    requires Counted(prims, v, p)
    ensures Rate(prims, v, Repeated(p, n)) == Saturated(U64_MAX, n * v.weights[p.id]) as real / v.total as real
    ensures Rate(prims, v, Repeated(p, n)) >= 1.0 <==> n * v.weights[p.id] >= v.total
    ensures Signers(prims, v, Repeated(p, n)) <= {p.id}
  {
    WeightOfRepeated(prims, v, p, n);
    TotalPositive(v);
    WholeShare(SignedWeight(prims, v, Repeated(p, n)), v.total);
  }

  /**
   So quorums need not intersect: in every voter set, enough copies of any two authorities' precommits make two
   justifications of full participation that share no signer.
   */
  lemma RepeatsNeedNotIntersect(prims: Primitives, v: VoterSet, p: SignedPrecommit, q: SignedPrecommit)
    requires Counted(prims, v, p) && Counted(prims, v, q) && p.id != q.id
    ensures var ps, qs := Repeated(p, v.total), Repeated(q, v.total);
            && Rate(prims, v, ps) >= 1.0 && Rate(prims, v, qs) >= 1.0
            && Signers(prims, v, ps) * Signers(prims, v, qs) == {}
  {
    EnoughCopies(v.total, v.weights[p.id]);
    EnoughCopies(v.total, v.weights[q.id]);
    RepeatedSignerReachesFullRate(prims, v, p, v.total);
    RepeatedSignerReachesFullRate(prims, v, q, v.total);
  }

  lemma EnoughCopies(n: nat, w: nat)
    requires w >= 1
    ensures n * w >= n
  {
  }

  lemma {:induction false} WeightOfRepeated(prims: Primitives, v: VoterTable, p: SignedPrecommit, n: nat)
    ensures ExactWeight(prims, v, Repeated(p, n)) == n * Contribution(prims, v, p)
  {
    if n > 0 {
      var init := Repeated(p, n - 1);
      WeightOfRepeated(prims, v, p, n - 1);
      assert (init + [p])[..n - 1] == init;
      Distribute(n - 1, Contribution(prims, v, p));
    }
  }

  // ----- Sums over sets

  lemma {:induction false} SumWithout(weights: map<AuthorityId, nat>, ids: set<AuthorityId>, x: AuthorityId)
    requires ids <= weights.Keys && x in ids
    ensures SumOver(weights, ids) == weights[x] + SumOver(weights, ids - {x})
    decreases ids
  {
    var id :| id in ids && SumOver(weights, ids) == weights[id] + SumOver(weights, ids - {id});
    if id != x {
      SumWithout(weights, ids - {id}, x);
      SumWithout(weights, ids - {x}, id);
      assert ids - {id} - {x} == ids - {x} - {id};
    }
  }

  lemma SumOfOne(weights: map<AuthorityId, nat>, id: AuthorityId)
    requires id in weights
    ensures SumOver(weights, {id}) == weights[id]
    ensures weights.Keys == {id} ==> SumOver(weights, weights.Keys) == weights[id]
  {
    SumWithout(weights, {id}, id);
    assert {id} - {id} == {};
  }

  lemma {:induction false} SumOfUnion(weights: map<AuthorityId, nat>, a: set<AuthorityId>, b: set<AuthorityId>)
    requires a + b <= weights.Keys && a !! b
    ensures SumOver(weights, a + b) == SumOver(weights, a) + SumOver(weights, b)
    decreases a
  {
    if a == {} {
      assert a + b == b;
    } else {
      var x :| x in a;
      SumWithout(weights, a, x);
      SumWithout(weights, a + b, x);
      assert a + b - {x} == a - {x} + b;
      SumOfUnion(weights, a - {x}, b);
    }
  }

  lemma SumMonotone(weights: map<AuthorityId, nat>, a: set<AuthorityId>, b: set<AuthorityId>)
    requires a <= b <= weights.Keys
    ensures SumOver(weights, a) <= SumOver(weights, b)
  {
    SumOfUnion(weights, a, b - a);
    assert a + (b - a) == b;
  }

  lemma InclusionExclusion(weights: map<AuthorityId, nat>, a: set<AuthorityId>, b: set<AuthorityId>)
    requires a + b <= weights.Keys
    ensures SumOver(weights, a) + SumOver(weights, b) == SumOver(weights, a + b) + SumOver(weights, a * b)
  {
    SumOfUnion(weights, a, b - a);
    assert a + (b - a) == a + b;
    SumOfUnion(weights, a * b, b - a);
    assert a * b + (b - a) == b;
  }

  /** A voter set always has voting power. */
  lemma TotalPositive(v: VoterSet)
    ensures v.total > 0
  {
    var id :| id in v.weights;
    SumWithout(v.weights, v.weights.Keys, id);
  }

  // ----- Arithmetic

  lemma DivideMonotone(a: real, b: real, d: real)
    requires a <= b && d > 0.0
    ensures a / d <= b / d
  {
  }

  lemma ShareInUnit(part: nat, whole: nat)
    requires part <= whole && whole > 0
    ensures 0.0 <= part as real / whole as real <= 1.0
  {
  }

  lemma ShareTimesWhole(part: nat, whole: nat)
    requires whole > 0
    ensures part as real / whole as real * whole as real == part as real
  {
  }

  lemma ShareOfSum(a: nat, b: nat, whole: nat)
    requires whole > 0
    ensures (a + b) as real / whole as real == a as real / whole as real + b as real / whole as real
  {
    assert (a + b) as real == a as real + b as real;
  }

  lemma WholeShare(part: nat, whole: nat)
    requires whole > 0
    ensures part as real / whole as real >= 1.0 <==> part >= whole
  {
    assert part as real / whole as real * whole as real == part as real;
  }

  lemma ShareAtLeast(part: nat, whole: nat, rate: real)
    requires whole > 0 && part as real / whole as real >= rate
    ensures part as real >= rate * whole as real
  {
    var q := part as real / whole as real;
    assert q * whole as real == part as real;
    assert (q - rate) * whole as real >= 0.0;
  }

  lemma Distribute(n: nat, w: nat)
    ensures n * w + w == (n + 1) * w
  {
  }
}
