/** Safety of the validator protocol over whole runs (stellar-lend/contracts/bridge/src/lib.rs). */
module BridgeRuns {
  import opened Numeric
  import opened Sequences
  import opened Bridge

  // ---------------------------------------------------------------------------
  // Sets
  // ---------------------------------------------------------------------------

  lemma {:induction false} SubsetSize(a: set<Key>, b: set<Key>)
    requires a <= b
    ensures |a| <= |b|
  {
    if a == {} {
    } else {
      var k :| k in a;
      SubsetSize(a - {k}, b - {k});
    }
  }

  lemma UnionSize(a: set<Key>, b: set<Key>)
    ensures |a + b| <= |a| + |b|
  {
  }

  // ---------------------------------------------------------------------------
  // Quorums
  // ---------------------------------------------------------------------------

  /** The collected signers are active, and each has a valid signature in the proof. */
  lemma {:induction false} SignersAreActive(c: Council, payload: Payload, proofs: seq<Proof>, verify: Verifier)
    requires Signers(c, payload, proofs, verify).Ok?
    ensures Signers(c, payload, proofs, verify).value <= Active(c)
    ensures forall k :: k in Signers(c, payload, proofs, verify).value ==>
              exists p :: p in proofs && p.pk == k && verify(k, payload, p.sig)
  {
    if proofs == [] {
    } else {
      var front := proofs[..|proofs| - 1];
      SignersAreActive(c, payload, front, verify);
      var last := proofs[|proofs| - 1];
      assert last in proofs;
      assert forall p :: p in front ==> p in proofs;
    }
  }

  ghost function ProofKeys(proofs: seq<Proof>): set<Key> {
    set p | p in proofs :: p.pk
  }

  /** When every key is a member's and every active key's signatures are valid, the collected signers are
      exactly the active keys of the proof. */
  lemma {:induction false} HonestProofCollects(c: Council, payload: Payload, proofs: seq<Proof>, verify: Verifier)
    requires forall p :: p in proofs ==> p.pk in c.validators
    requires forall p :: p in proofs && p.pk !in c.paused ==> verify(p.pk, payload, p.sig)
    ensures Signers(c, payload, proofs, verify) == Ok(ProofKeys(proofs) * Active(c))
  {
    if proofs == [] {
      assert ProofKeys(proofs) * Active(c) == {};
    } else {
      var front, last := proofs[..|proofs| - 1], proofs[|proofs| - 1];
      assert proofs == front + [last];
      assert last in proofs && forall p :: p in front ==> p in proofs;
      HonestProofCollects(c, payload, front, verify);
      var seen := ProofKeys(front) * Active(c);
      assert ProofKeys(proofs) == ProofKeys(front) + {last.pk};
      if last.pk in c.paused {
        assert ProofKeys(proofs) * Active(c) == seen;
      } else if last.pk in seen {
        assert ProofKeys(proofs) * Active(c) == seen;
      } else {
        assert last.pk in Active(c);
        assert ProofKeys(proofs) * Active(c) == seen + {last.pk};
      }
    }
  }

  /** An honest proof is accepted exactly when its active keys reach the effective threshold, so paused
      keys neither help nor hurt. */
  lemma HonestProofAccepted(c: Council, newSet: seq<Key>, epoch: u64, proofs: seq<Proof>, verify: Verifier)
    requires proofs != [] && forall p :: p in proofs ==> p.pk in c.validators
    requires forall p :: p in proofs && p.pk !in c.paused ==> verify(p.pk, RotationPayload(c, newSet, epoch), p.sig)
    ensures QuorumCheck(c, newSet, epoch, proofs, verify).Ok? <==>
            |ProofKeys(proofs) * Active(c)| >= EffectiveThreshold(c)
  {
    HonestProofCollects(c, RotationPayload(c, newSet, epoch), proofs, verify);
  }

  /** A proof's `i`-th entry is the first by its key, and the key is not paused, so its signature is checked. */
  ghost predicate Checks(c: Council, proofs: seq<Proof>, i: nat)
    requires i < |proofs|
  {
    proofs[i].pk !in c.paused && forall j :: 0 <= j < i ==> proofs[j].pk != proofs[i].pk
  }

  /** Every key is a member's, and every signature that is checked is valid. */
  ghost predicate Valid(c: Council, payload: Payload, proofs: seq<Proof>, verify: Verifier) {
    && (forall i :: 0 <= i < |proofs| ==> proofs[i].pk in c.validators)
    && (forall i :: 0 <= i < |proofs| && Checks(c, proofs, i) ==> verify(proofs[i].pk, payload, proofs[i].sig))
  }

  /** Which proofs collect, and whom, exactly: valid ones collect their active keys. Later signatures by a key,
      and all by paused keys, are not looked at. */
  lemma {:induction false} SignersIff(c: Council, payload: Payload, proofs: seq<Proof>, verify: Verifier)
    ensures Signers(c, payload, proofs, verify).Ok? <==> Valid(c, payload, proofs, verify)
    ensures Signers(c, payload, proofs, verify).Ok? ==>
              Signers(c, payload, proofs, verify).value == ProofKeys(proofs) * Active(c)
  {
    if proofs == [] {
      assert ProofKeys(proofs) == {};
    } else {
      var front, last := proofs[..|proofs| - 1], proofs[|proofs| - 1];
      assert proofs == front + [last];
      SignersIff(c, payload, front, verify);
      assert ProofKeys(proofs) == ProofKeys(front) + {last.pk};
      ValidSplits(c, payload, front, last, verify);
      hide Valid;
    }
  }

  lemma ValidSplits(c: Council, payload: Payload, front: seq<Proof>, last: Proof, verify: Verifier)
    ensures Valid(c, payload, front + [last], verify) <==>
            && Valid(c, payload, front, verify) && last.pk in c.validators
            && (last.pk !in c.paused && last.pk !in ProofKeys(front) ==> verify(last.pk, payload, last.sig))
  {
    var proofs := front + [last];
    assert forall i :: 0 <= i < |front| ==> proofs[i] == front[i];
    assert forall i: nat :: i < |front| ==> (Checks(c, proofs, i) <==> Checks(c, front, i));
    assert last.pk in ProofKeys(front) <==> exists j :: 0 <= j < |front| && front[j].pk == last.pk;
    assert Checks(c, proofs, |front|) <==> last.pk !in c.paused && last.pk !in ProofKeys(front);
    if Valid(c, payload, proofs, verify) {
      assert proofs[|front|].pk in c.validators;
    }
  }

  /** Which proofs are accepted, exactly. */
  lemma QuorumIff(c: Council, newSet: seq<Key>, epoch: u64, proofs: seq<Proof>, verify: Verifier)
    ensures QuorumCheck(c, newSet, epoch, proofs, verify).Ok? <==>
            && proofs != [] && Valid(c, QuorumProofPayload(c.bridgeId, newSet, epoch), proofs, verify)
            && 3 * |ProofKeys(proofs) * Active(c)| > 2 * |Active(c)|
  {
    SignersIff(c, RotationPayload(c, newSet, epoch), proofs, verify);
    ThresholdIsLeast(|Active(c)|);
    hide Valid, Signers;
  }

  /** The threshold is the least supermajority. */
  lemma ThresholdIsLeast(n: nat)
    ensures forall k: nat :: k >= Threshold(n) <==> 3 * k > 2 * n
  {
  }

  /** Churn counts the keys in one set only. */
  lemma ChurnCounts(a: set<Key>, b: set<Key>)
    ensures Churn(a, b) == |(a - b) + (b - a)|
  {
  }

  /** Which rotations succeed, exactly, and what they leave: the new set, the next epoch and no pauses. */
  lemma RotatedIff(c: Council, newSet: seq<Key>, epoch: u64, proofs: seq<Proof>, verify: Verifier)
    ensures var here, next := Keys(c.validators), Keys(newSet);
            Rotated(c, newSet, epoch, proofs, verify).Ok? <==>
              && epoch == c.epoch + 1 && Distinct(newSet) && 3 <= |newSet| <= 32
              && (c.maxChurn.Some? ==> |(here - next) + (next - here)| <= c.maxChurn.value)
              && proofs != [] && Valid(c, QuorumProofPayload(c.bridgeId, newSet, epoch), proofs, verify)
              && 3 * |ProofKeys(proofs) * Active(c)| > 2 * |Active(c)|
    ensures Rotated(c, newSet, epoch, proofs, verify).Ok? ==>
              var r := Rotated(c, newSet, epoch, proofs, verify).value;
              && r.validators == newSet && r.epoch == epoch && r.paused == {}
              && r.guardian == c.guardian && r.bridgeId == c.bridgeId && r.maxChurn == c.maxChurn
  {
    QuorumIff(c, newSet, epoch, proofs, verify);
    ChurnCounts(Keys(c.validators), Keys(newSet));
    if Distinct(newSet) {
      DistinctSize(newSet);
    }
    hide QuorumCheck, Valid;
  }

  /** Which pauses succeed, exactly, and what they leave: one more member paused, and somebody still active. */
  lemma PausedIff(c: Council, k: Key, sig: Signature, verify: Verifier)
    ensures Paused(c, k, sig, verify).Ok? <==>
            && c.guardian.Some? && k in Active(c) && |Active(c)| >= 2
            && verify(c.guardian.value, PausePayload(k), sig)
    ensures Paused(c, k, sig, verify).Ok? ==> Paused(c, k, sig, verify).value == c.(paused := c.paused + {k})
  {
    if k in Active(c) {
      ThresholdReachable(|Active(c)| - 1);
    }
  }

  /** Which unpauses succeed, exactly: those of paused members, and only that member is active again. */
  lemma UnpausedIff(c: Council, k: Key, sig: Signature, verify: Verifier)
    ensures Unpaused(c, k, sig, verify).Ok? <==>
            && c.guardian.Some? && k in c.validators && k in c.paused
            && verify(c.guardian.value, UnpausePayload(k), sig)
    ensures Unpaused(c, k, sig, verify).Ok? ==>
              var r := Unpaused(c, k, sig, verify).value;
              && Active(r) == Active(c) + {k} && k !in r.paused && r.paused + {k} == c.paused
              && r.(paused := {}) == c.(paused := {})
  {
  }

  /** Quorums of two sets of active validators share at least what their sizes exceed the two sets by. */
  lemma QuorumsOverlap(active: set<Key>, active': set<Key>, s: set<Key>, t: set<Key>)
    requires s <= active && t <= active'
    ensures |s * t| + |active + active'| >= |s| + |t|
  {
    assert |s + t| + |s * t| == |s| + |t|;
    SubsetSize(s + t, active + active');
  }

  /** Members of `keys` with a valid signature of the payload among the proofs presented. */
  ghost function SignedIn(keys: set<Key>, payload: Payload, proofs: seq<Proof>, verify: Verifier): set<Key> {
    set k | k in keys && exists p :: p in proofs && p.pk == k && verify(k, payload, p.sig)
  }

  /** Keys active in both councils whose signatures appear in the proof for `a` and in the proof for `b`. */
  ghost function CommonSigners(c: Council, c': Council, a: seq<Key>, b: seq<Key>, epoch: u64,
                               pa: seq<Proof>, pb: seq<Proof>, verify: Verifier): set<Key> {
    SignedIn(Active(c), RotationPayload(c, a, epoch), pa, verify)
    * SignedIn(Active(c'), RotationPayload(c', b, epoch), pb, verify)
  }

  lemma SignersSigned(c: Council, payload: Payload, proofs: seq<Proof>, verify: Verifier)
    requires Signers(c, payload, proofs, verify).Ok?
    ensures Signers(c, payload, proofs, verify).value <= SignedIn(Active(c), payload, proofs, verify)
  {
    SignersAreActive(c, payload, proofs, verify);
  }

  /** Two accepted proofs, whatever is paused in each state, have at least as many common signers as the
      two quorums have seats beyond the validators active in either. */
  lemma AcceptedProofsOverlap(c: Council, c': Council, a: seq<Key>, b: seq<Key>, epoch: u64,
                              pa: seq<Proof>, pb: seq<Proof>, verify: Verifier)
    requires QuorumCheck(c, a, epoch, pa, verify).Ok? && QuorumCheck(c', b, epoch, pb, verify).Ok?
    ensures |CommonSigners(c, c', a, b, epoch, pa, pb, verify)| + |Active(c) + Active(c')|
            >= EffectiveThreshold(c) + EffectiveThreshold(c')
  {
    var x, y := RotationPayload(c, a, epoch), RotationPayload(c', b, epoch);
    SignersSigned(c, x, pa, verify);
    SignersSigned(c', y, pb, verify);
    var s, t := Signers(c, x, pa, verify).value, Signers(c', y, pb, verify).value;
    hide Signers, SignedIn, Threshold;
    SubsetSize(s * t, CommonSigners(c, c', a, b, epoch, pa, pb, verify));
    QuorumsOverlap(Active(c), Active(c'), s, t);
  }

  /** Any two accepted proofs from the same validators and pauses share more than a third of the active
      validators, each with a signature of both payloads among the proofs presented. */
  lemma AcceptedProofsIntersect(c: Council, c': Council, a: seq<Key>, b: seq<Key>, epoch: u64,
                                pa: seq<Proof>, pb: seq<Proof>, verify: Verifier)
    requires c'.validators == c.validators && c'.paused == c.paused
    requires QuorumCheck(c, a, epoch, pa, verify).Ok? && QuorumCheck(c', b, epoch, pb, verify).Ok?
    ensures 3 * |CommonSigners(c, c', a, b, epoch, pa, pb, verify)| > |Active(c)|
  {
    AcceptedProofsOverlap(c, c', a, b, epoch, pa, pb, verify);
    assert Active(c) + Active(c') == Active(c);
  }

  /** Fewer keys sign two different sets in these proofs than the two quorums must share. */
  ghost predicate FewDoubleSigners(c: Council, c': Council, a: seq<Key>, b: seq<Key>, epoch: u64,
                                   pa: seq<Proof>, pb: seq<Proof>, verify: Verifier) {
    a != b ==>
      |CommonSigners(c, c', a, b, epoch, pa, pb, verify)| + |Active(c) + Active(c')|
      < EffectiveThreshold(c) + EffectiveThreshold(c')
  }

  /** With the same pauses, a third of the active validators is few enough; in particular when the keys
      outside an honest set, whose members never sign two sets, are at most a third. */
  lemma HonestTwoThirdsSuffice(c: Council, c': Council, a: seq<Key>, b: seq<Key>, epoch: u64,
                               pa: seq<Proof>, pb: seq<Proof>, verify: Verifier, honest: set<Key>)
    requires c'.validators == c.validators && c'.paused == c.paused
    requires 3 * |Active(c) - honest| <= |Active(c)|
    requires a != b ==> CommonSigners(c, c', a, b, epoch, pa, pb, verify) !! honest
    ensures FewDoubleSigners(c, c', a, b, epoch, pa, pb, verify)
  {
    if a != b {
      SubsetSize(CommonSigners(c, c', a, b, epoch, pa, pb, verify), Active(c) - honest);
      assert Active(c) + Active(c') == Active(c);
    }
  }

  /** With few double signers, only one new set is accepted for an epoch, whatever proofs are offered. */
  lemma RotationIsUnique(c: Council, c': Council, a: seq<Key>, b: seq<Key>, epoch: u64,
                         pa: seq<Proof>, pb: seq<Proof>, verify: Verifier)
    requires Rotated(c, a, epoch, pa, verify).Ok? && Rotated(c', b, epoch, pb, verify).Ok?
    requires FewDoubleSigners(c, c', a, b, epoch, pa, pb, verify)
    ensures a == b
  {
    AcceptedProofsOverlap(c, c', a, b, epoch, pa, pb, verify);
  }

  // ---------------------------------------------------------------------------
  // Runs
  // ---------------------------------------------------------------------------

  datatype Call =
    | Rotate(newSet: seq<Key>, epoch: u64, proofs: seq<Proof>)
    | Pause(validator: Key, sig: Signature)
    | Unpause(validator: Key, sig: Signature)
    | SetGuardian(guardian: Key)
    | SetMaxChurn(limit: Option<nat>)

  ghost function Step(c: Council, call: Call, verify: Verifier): Council {
    match call
    case Rotate(n, e, ps) => (match Rotated(c, n, e, ps, verify) case Ok(c') => c' case Err(_) => c)
    case Pause(k, s) => (match Paused(c, k, s, verify) case Ok(c') => c' case Err(_) => c)
    case Unpause(k, s) => (match Unpaused(c, k, s, verify) case Ok(c') => c' case Err(_) => c)
    case SetGuardian(g) => c.(guardian := Some(g))
    case SetMaxChurn(limit) => c.(maxChurn := limit)
  }

  ghost predicate Rotates(c: Council, call: Call, verify: Verifier) {
    call.Rotate? && Rotated(c, call.newSet, call.epoch, call.proofs, verify).Ok?
  }

  ghost function Run(c: Council, calls: seq<Call>, verify: Verifier): Council {
    if calls == [] then c
    else Step(Run(c, calls[..|calls| - 1], verify), calls[|calls| - 1], verify)
  }

  /** Number of successful rotations in a run. */
  ghost function Rotations(c: Council, calls: seq<Call>, verify: Verifier): nat {
    if calls == [] then 0
    else
      var front := calls[..|calls| - 1];
      Rotations(c, front, verify)
      + if Rotates(Run(c, front, verify), calls[|calls| - 1], verify) then 1 else 0
  }

  /** What every call keeps: pauses name members, and the active validators can reach their quorum. */
  ghost predicate Live(c: Council) {
    && c.paused <= Keys(c.validators)
    && EffectiveThreshold(c) <= |Active(c)|
  }

  ghost predicate WellFormedSet(validators: seq<Key>) {
    Distinct(validators) && MIN_VALIDATORS <= |validators| <= MAX_VALIDATORS
  }

  lemma {:induction false} DistinctSize(s: seq<Key>)
    requires Distinct(s)
    ensures |Keys(s)| == |s|
  {
    if s == [] {
    } else {
      var front := s[..|s| - 1];
      DistinctSize(front);
      assert Keys(s) == Keys(front) + {s[|s| - 1]};
    }
  }

  lemma ThresholdReachable(n: nat)
    ensures Threshold(n) <= n <==> n > 0
  {
  }

  lemma RotationKeepsLive(c: Council, call: Call, verify: Verifier)
    requires Rotates(c, call, verify)
    ensures Live(Step(c, call, verify)) && WellFormedSet(Step(c, call, verify).validators)
    ensures Step(c, call, verify).epoch == c.epoch + 1
  {
    DistinctSize(call.newSet);
    assert Active(Step(c, call, verify)) == Keys(call.newSet);
    ThresholdReachable(|Keys(call.newSet)|);
  }

  lemma PauseKeepsLive(c: Council, k: Key, sig: Signature, verify: Verifier)
    requires Live(c) && Paused(c, k, sig, verify).Ok?
    ensures Live(Paused(c, k, sig, verify).value)
  {
    assert Active(Paused(c, k, sig, verify).value) == Active(c) - {k};
  }

  lemma UnpauseKeepsLive(c: Council, k: Key, sig: Signature, verify: Verifier)
    requires Live(c) && Unpaused(c, k, sig, verify).Ok?
    ensures Live(Unpaused(c, k, sig, verify).value)
  {
    assert Active(Unpaused(c, k, sig, verify).value) == Active(c) + {k};
    ThresholdReachable(|Active(c)|);
    ThresholdReachable(|Active(c) + {k}|);
  }

  /** Every call keeps `Live`; only a successful rotation moves the epoch or the validators. */
  lemma StepKeepsLive(c: Council, call: Call, verify: Verifier)
    requires Live(c)
    ensures Live(Step(c, call, verify))
    ensures Rotates(c, call, verify) ==> WellFormedSet(Step(c, call, verify).validators)
    ensures Step(c, call, verify).epoch == c.epoch + if Rotates(c, call, verify) then 1 else 0
    ensures !Rotates(c, call, verify) ==> Step(c, call, verify).validators == c.validators
  {
    hide Threshold, WellFormedSet;
    if Rotates(c, call, verify) {
      RotationKeepsLive(c, call, verify);
    } else if call.Pause? && Paused(c, call.validator, call.sig, verify).Ok? {
      PauseKeepsLive(c, call.validator, call.sig, verify);
    } else if call.Unpause? && Unpaused(c, call.validator, call.sig, verify).Ok? {
      UnpauseKeepsLive(c, call.validator, call.sig, verify);
    } else {
      hide Rotated, Paused, Unpaused;
      assert Active(Step(c, call, verify)) == Active(c);
    }
  }

  lemma NewCouncilIsLive(initial: seq<Key>, bridgeId: seq<int>)
    ensures Live(NewCouncil(initial, bridgeId)) <==> initial != []
  {
    var c := NewCouncil(initial, bridgeId);
    if initial != [] {
      assert initial[0] in Active(c);
    } else {
      assert Active(c) == {};
    }
  }

  /** In every state reachable from a live one, whatever is called with whatever arguments: pauses name
      current validators, the quorum is reachable, the epoch counts the successful rotations, and after
      the first of them the set is free of duplicates and has 3 to 32 keys. */
  lemma {:induction false} ReachableIsLive(c: Council, calls: seq<Call>, verify: Verifier)
    requires Live(c)
    ensures var r := Run(c, calls, verify);
            var n := Rotations(c, calls, verify);
            && Live(r)
            && r.epoch == c.epoch + n
            && (n > 0 ==> WellFormedSet(r.validators))
            && (n == 0 ==> r.validators == c.validators)
  {
    if calls == [] {
    } else {
      ReachableIsLive(c, calls[..|calls| - 1], verify);
      StepKeepsLive(Run(c, calls[..|calls| - 1], verify), calls[|calls| - 1], verify);
    }
  }

  // ---------------------------------------------------------------------------
  // Churn
  // ---------------------------------------------------------------------------

  lemma ChurnTriangle(a: set<Key>, b: set<Key>, c: set<Key>)
    ensures Churn(a, c) <= Churn(a, b) + Churn(b, c)
  {
    SubsetSize(a - c, (a - b) + (b - c));
    UnionSize(a - b, b - c);
    SubsetSize(c - a, (c - b) + (b - a));
    UnionSize(c - b, b - a);
  }

  lemma NoChurn(a: set<Key>)
    ensures Churn(a, a) == 0
  {
    assert a - a == {};
  }

  lemma StepChurn(c: Council, call: Call, verify: Verifier, limit: nat)
    requires c.maxChurn == Some(limit) && !call.SetMaxChurn?
    ensures Step(c, call, verify).maxChurn == Some(limit)
    ensures Churn(Keys(c.validators), Keys(Step(c, call, verify).validators))
            <= if Rotates(c, call, verify) then limit else 0
  {
    if !Rotates(c, call, verify) {
      assert Step(c, call, verify).validators == c.validators;
      NoChurn(Keys(c.validators));
    }
  }

  /** Under a fixed limit, validator sets k rotations apart differ by at most k times the limit. */
  lemma {:induction false} ChurnAccumulates(c: Council, calls: seq<Call>, verify: Verifier, limit: nat)
    requires c.maxChurn == Some(limit)
    requires forall i :: 0 <= i < |calls| ==> !calls[i].SetMaxChurn?
    ensures Run(c, calls, verify).maxChurn == Some(limit)
    ensures Churn(Keys(c.validators), Keys(Run(c, calls, verify).validators))
            <= Rotations(c, calls, verify) * limit
  {
    hide Step, Rotates, Churn;
    if calls == [] {
      NoChurn(Keys(c.validators));
    } else {
      var front := calls[..|calls| - 1];
      ChurnAccumulates(c, front, verify, limit);
      var mid := Run(c, front, verify);
      StepChurn(mid, calls[|calls| - 1], verify, limit);
      ChurnTriangle(Keys(c.validators), Keys(mid.validators), Keys(Run(c, calls, verify).validators));
      var n := Rotations(c, front, verify);
      assert (n + 1) * limit == n * limit + limit;
    }
  }

  // ---------------------------------------------------------------------------
  // Agreement between replicas
  // ---------------------------------------------------------------------------

  lemma {:induction false} RunKeepsEpochOrder(c: Council, calls: seq<Call>, verify: Verifier)
    ensures Run(c, calls, verify).epoch >= c.epoch
  {
    if calls == [] {
    } else {
      var front := calls[..|calls| - 1];
      RunKeepsEpochOrder(c, front, verify);
      if Rotates(Run(c, front, verify), calls[|calls| - 1], verify) {
        RotationMovesEpoch(Run(c, front, verify), calls[|calls| - 1], verify);
      } else {
        StepWithoutRotation(Run(c, front, verify), calls[|calls| - 1], verify);
      }
    }
  }

  /** A call that does not rotate can be dropped from the end of a run. */
  lemma StepWithoutRotation(c: Council, call: Call, verify: Verifier)
    requires !Rotates(c, call, verify)
    ensures Step(c, call, verify).validators == c.validators && Step(c, call, verify).epoch == c.epoch
  {
  }

  lemma RotationMovesEpoch(c: Council, call: Call, verify: Verifier)
    requires Rotates(c, call, verify)
    ensures Step(c, call, verify).epoch == c.epoch + 1 == call.epoch
    ensures Step(c, call, verify).validators == call.newSet
  {
  }

  /** Whenever two runs are at one epoch and about to rotate, the proofs in hand have few double signers. */
  ghost predicate FewDoubleSignersIn(c: Council, xs: seq<Call>, ys: seq<Call>, verify: Verifier) {
    forall i, j :: 0 <= i < |xs| && 0 <= j < |ys| ==>
      FewDoubleSignersAt(Run(c, xs[..i], verify), Run(c, ys[..j], verify), xs[i], ys[j], verify)
  }

  ghost predicate FewDoubleSignersAt(x: Council, y: Council, cx: Call, cy: Call, verify: Verifier) {
    x.epoch == y.epoch && x.validators == y.validators && Rotates(x, cx, verify) && Rotates(y, cy, verify) ==>
      FewDoubleSigners(x, y, cx.newSet, cy.newSet, cx.epoch, cx.proofs, cy.proofs, verify)
  }

  lemma FewDoubleSignersInPrefixes(c: Council, xs: seq<Call>, ys: seq<Call>, verify: Verifier, m: nat, n: nat)
    requires FewDoubleSignersIn(c, xs, ys, verify) && m <= |xs| && n <= |ys|
    ensures FewDoubleSignersIn(c, xs[..m], ys[..n], verify)
  {
    hide Run, FewDoubleSignersAt;
    assert forall i :: 0 <= i < m ==> xs[..m][..i] == xs[..i];
    assert forall j :: 0 <= j < n ==> ys[..n][..j] == ys[..j];
  }

  /** Agreement over whole runs. Two replicas of one bridge that start from the same state and are fed
      arbitrary calls and proofs, pauses included, hold the same validators whenever they are at the same
      epoch, provided that few keys sign two sets in the proofs the runs present. */
  lemma {:induction false} ReplicasAgree(c: Council, xs: seq<Call>, ys: seq<Call>, verify: Verifier)
    requires FewDoubleSignersIn(c, xs, ys, verify)
    requires Run(c, xs, verify).epoch == Run(c, ys, verify).epoch
    ensures Run(c, xs, verify).validators == Run(c, ys, verify).validators
    decreases |xs| + |ys|
  {
    hide Step, Rotates, FewDoubleSignersIn, FewDoubleSigners;
    var m, n := |xs| - 1, |ys| - 1;
    assert xs[..|xs|] == xs && ys[..|ys|] == ys;
    if xs != [] && !Rotates(Run(c, xs[..m], verify), xs[m], verify) {
      StepWithoutRotation(Run(c, xs[..m], verify), xs[m], verify);
      FewDoubleSignersInPrefixes(c, xs, ys, verify, m, |ys|);
      ReplicasAgree(c, xs[..m], ys, verify);
    } else if ys != [] && !Rotates(Run(c, ys[..n], verify), ys[n], verify) {
      StepWithoutRotation(Run(c, ys[..n], verify), ys[n], verify);
      FewDoubleSignersInPrefixes(c, xs, ys, verify, |xs|, n);
      ReplicasAgree(c, xs, ys[..n], verify);
    } else if xs == [] && ys == [] {
    } else if xs == [] {
      RunKeepsEpochOrder(c, ys[..n], verify);
      RotationMovesEpoch(Run(c, ys[..n], verify), ys[n], verify);
    } else if ys == [] {
      RunKeepsEpochOrder(c, xs[..m], verify);
      RotationMovesEpoch(Run(c, xs[..m], verify), xs[m], verify);
    } else {
      RotationMovesEpoch(Run(c, xs[..m], verify), xs[m], verify);
      RotationMovesEpoch(Run(c, ys[..n], verify), ys[n], verify);
      FewDoubleSignersInPrefixes(c, xs, ys, verify, m, n);
      ReplicasAgree(c, xs[..m], ys[..n], verify);
      LastRotationsAgree(c, xs, ys, verify);
    }
  }

  lemma LastRotationsAgree(c: Council, xs: seq<Call>, ys: seq<Call>, verify: Verifier)
    requires FewDoubleSignersIn(c, xs, ys, verify) && xs != [] && ys != []
    requires var x, y := Run(c, xs[..|xs| - 1], verify), Run(c, ys[..|ys| - 1], verify);
             && x.epoch == y.epoch && x.validators == y.validators
             && Rotates(x, xs[|xs| - 1], verify) && Rotates(y, ys[|ys| - 1], verify)
    ensures xs[|xs| - 1].newSet == ys[|ys| - 1].newSet
  {
    hide Run, FewDoubleSigners;
    var m, n := |xs| - 1, |ys| - 1;
    var x, y := Run(c, xs[..m], verify), Run(c, ys[..n], verify);
    assert FewDoubleSignersAt(x, y, xs[m], ys[n], verify);
    RotationIsUnique(x, y, xs[m].newSet, ys[n].newSet, xs[m].epoch, xs[m].proofs, ys[n].proofs, verify);
  }

  // ---------------------------------------------------------------------------
  // How few double signers can split the bridge
  // ---------------------------------------------------------------------------

  lemma {:induction false} PickSubset(s: set<Key>, n: nat) returns (r: set<Key>)
    requires n <= |s|
    ensures r <= s && |r| == n
  {
    if n == 0 {
      r := {};
    } else {
      var k :| k in s;
      r := PickSubset(s - {k}, n - 1);
      r := r + {k};
    }
  }

  /** A subset of the given size that leaves `last` for last. */
  lemma PickAvoiding(s: set<Key>, last: set<Key>, n: nat) returns (r: set<Key>)
    requires n <= |s|
    ensures r <= s && |r| == n
    ensures r !! last || s - last <= r
  {
    if n <= |s - last| {
      r := PickSubset(s - last, n);
    } else {
      assert s == (s - last) + s * last;
      r := PickSubset(s * last, n - |s - last|);
      r := r + (s - last);
    }
  }

  /** Two sets admit subsets of given sizes that share no more than `QuorumsOverlap` forces on them. */
  lemma PickApart(a: set<Key>, b: set<Key>, m: nat, n: nat) returns (s: set<Key>, t: set<Key>)
    requires m <= |a| && n <= |b|
    ensures s <= a && t <= b && |s| == m && |t| == n
    ensures s * t == {} || |s * t| + |a + b| == m + n
  {
    s := PickAvoiding(a, b, m);
    t := PickAvoiding(b, s, n);
    if s * t != {} {
      assert a + b == s + t;
      assert |s + t| + |s * t| == |s| + |t|;
    }
  }

  /** A proof by each of the given keys. */
  lemma {:induction false} ProofsBy(keys: set<Key>) returns (proofs: seq<Proof>)
    ensures ProofKeys(proofs) == keys
  {
    if keys == {} {
      proofs := [];
    } else {
      var k :| k in keys;
      var rest := ProofsBy(keys - {k});
      proofs := rest + [Proof(k, Signature([]))];
      assert ProofKeys(proofs) == ProofKeys(rest) + {k};
    }
  }

  /** A scheme in which the guardian signs every pause, and each key of `s` and of `t` one payload. */
  function SplitVerifier(guardian: Key, s: set<Key>, x: Payload, t: set<Key>, y: Payload): Verifier {
    (k: Key, p: Payload, sig: Signature) =>
      if p.QuorumProofPayload? then (k in s && p == x) || (k in t && p == y) else k == guardian
  }

  /** Everything a rotation needs besides its proof. */
  ghost predicate Candidate(c: Council, newSet: seq<Key>, epoch: u64) {
    epoch == c.epoch + 1 && WellFormedSet(newSet) && ChurnAllowed(c, newSet)
  }

  lemma QuorumRotates(c: Council, newSet: seq<Key>, epoch: u64, proofs: seq<Proof>, verify: Verifier)
    requires Candidate(c, newSet, epoch)
    requires ProofKeys(proofs) <= Active(c) && |ProofKeys(proofs)| >= EffectiveThreshold(c)
    requires forall k, sig :: k in ProofKeys(proofs) ==> verify(k, RotationPayload(c, newSet, epoch), sig)
    ensures Rotated(c, newSet, epoch, proofs, verify).Ok?
  {
    DistinctSize(newSet);
    assert proofs != [];
    assert forall p :: p in proofs ==> p.pk in ProofKeys(proofs);
    assert ProofKeys(proofs) * Active(c) == ProofKeys(proofs);
    HonestProofAccepted(c, newSet, epoch, proofs, verify);
    hide QuorumCheck;
  }

  /** Two states accept `a` and `b` for one epoch, and at most `k` keys sign both. */
  ghost predicate AcceptsBoth(c: Council, c': Council, a: seq<Key>, b: seq<Key>, epoch: u64,
                              pa: seq<Proof>, pb: seq<Proof>, verify: Verifier, k: nat) {
    && Rotated(c, a, epoch, pa, verify).Ok? && Rotated(c', b, epoch, pb, verify).Ok?
    && |CommonSigners(c, c', a, b, epoch, pa, pb, verify)| <= k
  }

  /** The double signers that `AcceptedProofsOverlap` forces are enough, for any two sets that are
      otherwise acceptable. */
  lemma FewestDoubleSigners(c: Council, c': Council, a: seq<Key>, b: seq<Key>, epoch: u64, k: nat, guardian: Key)
    returns (pa: seq<Proof>, pb: seq<Proof>, s: set<Key>, t: set<Key>)
    requires Live(c) && Live(c') && a != b && Candidate(c, a, epoch) && Candidate(c', b, epoch)
    requires EffectiveThreshold(c) + EffectiveThreshold(c') <= |Active(c) + Active(c')| + k
    ensures AcceptsBoth(c, c', a, b, epoch, pa, pb,
                        SplitVerifier(guardian, s, RotationPayload(c, a, epoch), t, RotationPayload(c', b, epoch)), k)
  {
    hide Threshold, Candidate;
    s, t := PickApart(Active(c), Active(c'), EffectiveThreshold(c), EffectiveThreshold(c'));
    pa := ProofsBy(s);
    pb := ProofsBy(t);
    var x, y := RotationPayload(c, a, epoch), RotationPayload(c', b, epoch);
    var verify := SplitVerifier(guardian, s, x, t, y);
    QuorumRotates(c, a, epoch, pa, verify);
    QuorumRotates(c', b, epoch, pb, verify);
    hide Rotated;
    assert SignedIn(Active(c), x, pa, verify) <= s && SignedIn(Active(c'), y, pb, verify) <= t;
    SubsetSize(CommonSigners(c, c', a, b, epoch, pa, pb, verify), s * t);
  }

  /** Exactly how many double signers it takes, in any two live states, pauses and all: two different sets,
      each acceptable but for its proof, can both be accepted with at most `k` keys signing both if and only
      if the two thresholds exceed the validators active in either state by at most `k`. */
  lemma SplitIff(c: Council, c': Council, a: seq<Key>, b: seq<Key>, epoch: u64, k: nat)
    requires Live(c) && Live(c') && a != b && Candidate(c, a, epoch) && Candidate(c', b, epoch)
    ensures (exists pa, pb, verify :: AcceptsBoth(c, c', a, b, epoch, pa, pb, verify, k)) <==>
            EffectiveThreshold(c) + EffectiveThreshold(c') <= |Active(c) + Active(c')| + k
  {
    hide Threshold, Candidate;
    if EffectiveThreshold(c) + EffectiveThreshold(c') <= |Active(c) + Active(c')| + k {
      var pa, pb, s, t := FewestDoubleSigners(c, c', a, b, epoch, k, Key([]));
    }
    forall pa, pb, verify | AcceptsBoth(c, c', a, b, epoch, pa, pb, verify, k)
      ensures EffectiveThreshold(c) + EffectiveThreshold(c') <= |Active(c) + Active(c')| + k
    {
      BothOverlap(c, c', a, b, epoch, pa, pb, verify, k);
    }
  }

  lemma BothOverlap(c: Council, c': Council, a: seq<Key>, b: seq<Key>, epoch: u64,
                    pa: seq<Proof>, pb: seq<Proof>, verify: Verifier, k: nat)
    requires AcceptsBoth(c, c', a, b, epoch, pa, pb, verify, k)
    ensures EffectiveThreshold(c) + EffectiveThreshold(c') <= |Active(c) + Active(c')| + k
  {
    AcceptedProofsOverlap(c, c', a, b, epoch, pa, pb, verify);
  }

  /** Every proper subset of the initial validators can be paused, by a guardian set first. */
  lemma {:induction false} PauseRun(initial: seq<Key>, bridgeId: seq<int>, guardian: Key, paused: set<Key>, verify: Verifier)
    returns (calls: seq<Call>)
    requires paused < Keys(initial)
    requires forall k, sig :: verify(guardian, PausePayload(k), sig)
    ensures Run(NewCouncil(initial, bridgeId), calls, verify)
            == NewCouncil(initial, bridgeId).(guardian := Some(guardian), paused := paused)
    decreases paused
  {
    if paused == {} {
      calls := [SetGuardian(guardian)];
      assert calls[..0] == [];
      assert Run(NewCouncil(initial, bridgeId), calls[..0], verify) == NewCouncil(initial, bridgeId);
    } else {
      var k :| k in paused;
      var front := PauseRun(initial, bridgeId, guardian, paused - {k}, verify);
      calls := front + [Pause(k, Signature([]))];
      assert calls[..|front|] == front;
      LastPause(Run(NewCouncil(initial, bridgeId), front, verify), k, guardian, verify);
      assert paused - {k} + {k} == paused;
    }
  }

  lemma MissingFrom(a: set<Key>, b: set<Key>) returns (k: Key)
    requires a < b
    ensures k in b && k !in a
  {
    assert b <= a ==> a == b;
    k :| k in b && k !in a;
  }

  /** A pause that leaves somebody active goes through. */
  lemma LastPause(c: Council, k: Key, guardian: Key, verify: Verifier)
    requires c.guardian == Some(guardian) && verify(guardian, PausePayload(k), Signature([]))
    requires k in Active(c) && c.paused + {k} < Keys(c.validators)
    ensures Paused(c, k, Signature([]), verify) == Ok(c.(paused := c.paused + {k}))
  {
    var j := MissingFrom(c.paused + {k}, Keys(c.validators));
    SubsetSize({j, k}, Active(c));
    ThresholdReachable(|Active(c)| - 1);
  }

  /** Runs of two replicas of a new bridge after which they pause the given keys and accept `a` and `b`. */
  ghost predicate ReachesSplit(initial: seq<Key>, bridgeId: seq<int>, paused: set<Key>, paused': set<Key>,
                               a: seq<Key>, b: seq<Key>, xs: seq<Call>, ys: seq<Call>,
                               pa: seq<Proof>, pb: seq<Proof>, verify: Verifier, k: nat) {
    var x, y := Run(NewCouncil(initial, bridgeId), xs, verify), Run(NewCouncil(initial, bridgeId), ys, verify);
    && x.validators == initial && y.validators == initial
    && x.paused == paused && y.paused == paused'
    && AcceptsBoth(x, y, a, b, 1, pa, pb, verify, k)
  }

  /** The exact condition on the pauses, over runs of a new bridge: two replicas that have paused `paused`
      and `paused'` can rotate to different sets with at most `k` double signers if and only if the two
      thresholds exceed the validators not paused by both by at most `k`. With the same pauses that takes
      more than a third of the active validators; with three of six paused on either side it takes none. */
  lemma ReachableSplitIff(initial: seq<Key>, bridgeId: seq<int>, paused: set<Key>, paused': set<Key>,
                          a: seq<Key>, b: seq<Key>, k: nat)
    requires WellFormedSet(initial) && paused < Keys(initial) && paused' < Keys(initial)
    requires a != b && WellFormedSet(a) && WellFormedSet(b)
    ensures (exists xs, ys, pa, pb, verify :: ReachesSplit(initial, bridgeId, paused, paused', a, b, xs, ys, pa, pb, verify, k)) <==>
            Threshold(|Keys(initial) - paused|) + Threshold(|Keys(initial) - paused'|)
            <= |Keys(initial) - paused * paused'| + k
  {
    var base := NewCouncil(initial, bridgeId);
    assert (Keys(initial) - paused) + (Keys(initial) - paused') == Keys(initial) - paused * paused';
    hide Threshold, WellFormedSet, Run, Rotated, CommonSigners, Keys;
    if Threshold(|Keys(initial) - paused|) + Threshold(|Keys(initial) - paused'|)
       <= |Keys(initial) - paused * paused'| + k {
      SplitIsReached(initial, bridgeId, paused, paused', a, b, k);
    }
    forall xs, ys, pa, pb, verify | ReachesSplit(initial, bridgeId, paused, paused', a, b, xs, ys, pa, pb, verify, k)
      ensures Threshold(|Keys(initial) - paused|) + Threshold(|Keys(initial) - paused'|)
              <= |Keys(initial) - paused * paused'| + k
    {
      BothOverlap(Run(base, xs, verify), Run(base, ys, verify), a, b, 1, pa, pb, verify, k);
    }
  }

  lemma SplitIsReached(initial: seq<Key>, bridgeId: seq<int>, paused: set<Key>, paused': set<Key>,
                       a: seq<Key>, b: seq<Key>, k: nat)
    requires WellFormedSet(initial) && paused < Keys(initial) && paused' < Keys(initial)
    requires a != b && WellFormedSet(a) && WellFormedSet(b)
    requires Threshold(|Keys(initial) - paused|) + Threshold(|Keys(initial) - paused'|)
             <= |(Keys(initial) - paused) + (Keys(initial) - paused')| + k
    ensures exists xs, ys, pa, pb, verify :: ReachesSplit(initial, bridgeId, paused, paused', a, b, xs, ys, pa, pb, verify, k)
  {
    var g := Key([]);
    var x := NewCouncil(initial, bridgeId).(guardian := Some(g), paused := paused);
    var y := NewCouncil(initial, bridgeId).(guardian := Some(g), paused := paused');
    SomebodyActive(x);
    SomebodyActive(y);
    hide Threshold, WellFormedSet, Live, Keys;
    var pa, pb, s, t := FewestDoubleSigners(x, y, a, b, 1, k, g);
    var verify := SplitVerifier(g, s, RotationPayload(x, a, 1), t, RotationPayload(y, b, 1));
    var xs := PauseRun(initial, bridgeId, g, paused, verify);
    var ys := PauseRun(initial, bridgeId, g, paused', verify);
    hide AcceptsBoth, Run, SplitVerifier;
    assert ReachesSplit(initial, bridgeId, paused, paused', a, b, xs, ys, pa, pb, verify, k);
  }

  lemma SomebodyActive(c: Council)
    requires c.paused < Keys(c.validators)
    ensures Live(c)
  {
    var j := MissingFrom(c.paused, Keys(c.validators));
    assert j in Active(c);
    ThresholdReachable(|Active(c)|);
  }
}
