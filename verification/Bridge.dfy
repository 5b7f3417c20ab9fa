/** Validator rotation, guardian pauses and value caps of the bridge
    (stellar-lend/contracts/bridge/src/lib.rs). Signature verification is an arbitrary predicate;
    a payload is the tuple that the serialisation encodes. */
module Bridge {
  import opened Numeric
  import opened Sequences
  import opened ValueWindow

  const MIN_VALIDATORS: nat := 3
  const MAX_VALIDATORS: nat := 32
  const DEFAULT_WINDOW_SECS: u64 := 86_400

  datatype Key = Key(bytes: seq<int>)
  datatype Signature = Signature(bytes: seq<int>)

  datatype Payload =
    | QuorumProofPayload(bridgeId: seq<int>, newSet: seq<Key>, epoch: u64)
    | PausePayload(validator: Key)
    | UnpausePayload(validator: Key)

  type Verifier = (Key, Payload, Signature) -> bool

  datatype Proof = Proof(pk: Key, sig: Signature)

  datatype BridgeError =
    | InvalidEpoch
    | ValidatorSetTooSmall
    | ValidatorSetTooLarge
    | DuplicateValidatorKey
    | ChurnExceeded
    | EmptyProofs
    | UnknownSigner
    | BadSignature
    | InsufficientQuorum
    | NoGuardianConfigured
    | InvalidGuardianSignature
    | UnknownValidator
    | PauseWouldBreakQuorum
    | AlreadyPaused
    | NotPaused

  /** The part of the bridge that the validator protocol reads and writes. */
  datatype Council = Council(
    epoch: u64,
    validators: seq<Key>,
    paused: set<Key>,
    guardian: Option<Key>,
    bridgeId: seq<int>,
    maxChurn: Option<nat>)

  // ---------------------------------------------------------------------------
  // Pure parts
  // ---------------------------------------------------------------------------

  function Keys(validators: seq<Key>): set<Key> {
    set k | k in validators
  }

  /** Validators whose signatures count. */
  function Active(c: Council): set<Key> {
    Keys(c.validators) - c.paused
  }

  function Threshold(n: nat): nat {
    n * 2 / 3 + 1
  }

  function EffectiveThreshold(c: Council): nat {
    Threshold(|Active(c)|)
  }

  function Churn(a: set<Key>, b: set<Key>): nat {
    |b - a| + |a - b|
  }

  function RotationPayload(c: Council, newSet: seq<Key>, epoch: u64): Payload {
    QuorumProofPayload(c.bridgeId, newSet, epoch)
  }

  /** Active signers collected from a proof: paused and repeated keys are skipped unverified. */
  function Signers(c: Council, payload: Payload, proofs: seq<Proof>, verify: Verifier): Result<set<Key>, BridgeError> {
    if proofs == [] then Ok({})
    else
      var seen :- Signers(c, payload, proofs[..|proofs| - 1], verify);
      var p := proofs[|proofs| - 1];
      if p.pk !in c.validators then Err(UnknownSigner)
      else if p.pk in c.paused || p.pk in seen then Ok(seen)
      else if !verify(p.pk, payload, p.sig) then Err(BadSignature)
      else Ok(seen + {p.pk})
  }

  function QuorumCheck(c: Council, newSet: seq<Key>, epoch: u64, proofs: seq<Proof>, verify: Verifier): Result<(), BridgeError> {
    if proofs == [] then Err(EmptyProofs)
    else
      var signers :- Signers(c, RotationPayload(c, newSet, epoch), proofs, verify);
      if |signers| < EffectiveThreshold(c) then Err(InsufficientQuorum) else Ok(())
  }

  predicate ChurnAllowed(c: Council, newSet: seq<Key>) {
    c.maxChurn.Some? ==> Churn(Keys(c.validators), Keys(newSet)) <= c.maxChurn.value
  }

  /** At the last u64 epoch no rotation succeeds. */
  ghost function Rotated(c: Council, newSet: seq<Key>, epoch: u64, proofs: seq<Proof>, verify: Verifier): Result<Council, BridgeError> {
    if epoch != c.epoch + 1 then Err(InvalidEpoch)
    else if |Keys(newSet)| < MIN_VALIDATORS then Err(ValidatorSetTooSmall)
    else if |Keys(newSet)| > MAX_VALIDATORS then Err(ValidatorSetTooLarge)
    else if !Distinct(newSet) then Err(DuplicateValidatorKey)
    else if !ChurnAllowed(c, newSet) then Err(ChurnExceeded)
    else
      var _ :- QuorumCheck(c, newSet, epoch, proofs, verify);
      Ok(c.(validators := newSet, epoch := epoch, paused := {}))
  }

  function Paused(c: Council, k: Key, sig: Signature, verify: Verifier): Result<Council, BridgeError> {
    if c.guardian.None? then Err(NoGuardianConfigured)
    else if k !in c.validators then Err(UnknownValidator)
    else if k in c.paused then Err(AlreadyPaused)
    else
      var remaining := SatSub(|Active(c)|, 1);
      if remaining < Threshold(remaining) then Err(PauseWouldBreakQuorum)
      else if !verify(c.guardian.value, PausePayload(k), sig) then Err(InvalidGuardianSignature)
      else Ok(c.(paused := c.paused + {k}))
  }

  function Unpaused(c: Council, k: Key, sig: Signature, verify: Verifier): Result<Council, BridgeError> {
    if c.guardian.None? then Err(NoGuardianConfigured)
    else if k !in c.validators then Err(UnknownValidator)
    else if k !in c.paused then Err(NotPaused)
    else if !verify(c.guardian.value, UnpausePayload(k), sig) then Err(InvalidGuardianSignature)
    else Ok(c.(paused := c.paused - {k}))
  }

  // ---------------------------------------------------------------------------
  // The bridge object
  // ---------------------------------------------------------------------------

  class BridgeObject {
    const verify: Verifier
    const bridgeId: seq<int>
    var epoch: u64
    var validators: seq<Key>
    var paused: set<Key>
    var guardian: Option<Key>
    var maxChurn: Option<nat>
    var maxPerWindow: i128
    var windowSize: u64
    var windowStart: u64
    var windowInboundTotal: i128
    var maxOutboundPerWindow: i128
    var outboundWindowSize: u64
    var outboundWindowStart: u64
    var windowOutboundTotal: i128

    function Members(): Council
      reads this
    {
      Council(epoch, validators, paused, guardian, bridgeId, maxChurn)
    }

    function Inbound(): Window
      reads this
    {
      Window(maxPerWindow, windowSize, windowStart, windowInboundTotal)
    }

    function Outbound(): Window
      reads this
    {
      Window(maxOutboundPerWindow, outboundWindowSize, outboundWindowStart, windowOutboundTotal)
    }

    constructor (initial: seq<Key>, id: seq<int>, v: Verifier)
      ensures Members() == NewCouncil(initial, id) && verify == v
      ensures Inbound() == Window(0, DEFAULT_WINDOW_SECS, 0, 0)
      ensures Outbound() == Window(0, DEFAULT_WINDOW_SECS, 0, 0)
    {
      verify, bridgeId := v, id;
      epoch, validators, paused, guardian, maxChurn := 0, initial, {}, None, None;
      maxPerWindow, windowSize, windowStart, windowInboundTotal := 0, DEFAULT_WINDOW_SECS, 0, 0;
      maxOutboundPerWindow, outboundWindowSize, outboundWindowStart, windowOutboundTotal := 0, DEFAULT_WINDOW_SECS, 0, 0;
    }

    /** `verify_quorum_proof`. */
    method VerifyQuorumProof(newSet: seq<Key>, newEpoch: u64, proofs: seq<Proof>) returns (r: Result<(), BridgeError>)
      ensures r == QuorumCheck(Members(), newSet, newEpoch, proofs, verify)
    {
      if proofs == [] {
        return Err(EmptyProofs);
      }
      var payload := RotationPayload(Members(), newSet, newEpoch);
      var signers: set<Key> := {};
      assert proofs[..|proofs|] == proofs;
      for i := 0 to |proofs|
        invariant Signers(Members(), payload, proofs[..i], verify) == Ok(signers)
      {
        assert proofs[..i + 1][..i] == proofs[..i];
        var p := proofs[i];
        if p.pk !in validators {
          SignersFailForGood(Members(), payload, proofs, verify, i + 1);
          return Err(UnknownSigner);
        }
        if p.pk in paused {
          continue;
        }
        if p.pk in signers {
          continue;
        }
        if !verify(p.pk, payload, p.sig) {
          SignersFailForGood(Members(), payload, proofs, verify, i + 1);
          return Err(BadSignature);
        }
        signers := signers + {p.pk};
      }
      if |signers| < EffectiveThreshold(Members()) {
        return Err(InsufficientQuorum);
      }
      return Ok(());
    }

    /** The raw list must repeat no key. */
    method HasDuplicates(newSet: seq<Key>) returns (dup: bool)
      ensures dup <==> !Distinct(newSet)
    {
      var seen: set<Key> := {};
      for i := 0 to |newSet|
        invariant seen == Keys(newSet[..i])
        invariant Distinct(newSet[..i])
      {
        if newSet[i] in seen {
          return true;
        }
        assert newSet[..i + 1] == newSet[..i] + [newSet[i]];
        seen := seen + {newSet[i]};
      }
      assert newSet[..|newSet|] == newSet;
      return false;
    }

    /** `rotate_validators`, returning the churn. */
    method RotateValidators(newSet: seq<Key>, newEpoch: u64, proofs: seq<Proof>) returns (r: Result<nat, BridgeError>)
      modifies this
      ensures match Rotated(old(Members()), newSet, newEpoch, proofs, verify)
              case Ok(c) => r == Ok(Churn(old(Keys(validators)), Keys(newSet))) && Members() == c
              case Err(e) => r == Err(e) && Members() == old(Members())
      ensures Inbound() == old(Inbound()) && Outbound() == old(Outbound())
    {
      hide QuorumCheck, Distinct, EffectiveThreshold;
      if newEpoch != epoch + 1 {
        return Err(InvalidEpoch);
      }
      var uniqueCount := |Keys(newSet)|;
      if uniqueCount < MIN_VALIDATORS {
        return Err(ValidatorSetTooSmall);
      }
      if uniqueCount > MAX_VALIDATORS {
        return Err(ValidatorSetTooLarge);
      }
      var dup := HasDuplicates(newSet);
      if dup {
        return Err(DuplicateValidatorKey);
      }
      var added := |Keys(newSet) - Keys(validators)|;
      var removed := |Keys(validators) - Keys(newSet)|;
      var churn := added + removed;
      if maxChurn.Some? && churn > maxChurn.value {
        return Err(ChurnExceeded);
      }
      var _ :- VerifyQuorumProof(newSet, newEpoch, proofs);
      validators := newSet;
      epoch := newEpoch;
      paused := {};
      return Ok(churn);
    }

    /** `pause_validator`. */
    method PauseValidator(k: Key, sig: Signature) returns (r: Result<(), BridgeError>)
      modifies this`paused
      ensures match Paused(old(Members()), k, sig, verify)
              case Ok(c) => r == Ok(()) && Members() == c
              case Err(e) => r == Err(e) && Members() == old(Members())
    {
      if guardian.None? {
        return Err(NoGuardianConfigured);
      }
      if k !in validators {
        return Err(UnknownValidator);
      }
      if k in paused {
        return Err(AlreadyPaused);
      }
      var newActive := SatSub(|Active(Members())|, 1);
      if newActive < newActive * 2 / 3 + 1 {
        return Err(PauseWouldBreakQuorum);
      }
      if !verify(guardian.value, PausePayload(k), sig) {
        return Err(InvalidGuardianSignature);
      }
      paused := paused + {k};
      return Ok(());
    }

    /** `unpause_validator`. */
    method UnpauseValidator(k: Key, sig: Signature) returns (r: Result<(), BridgeError>)
      modifies this`paused
      ensures match Unpaused(old(Members()), k, sig, verify)
              case Ok(c) => r == Ok(()) && Members() == c
              case Err(e) => r == Err(e) && Members() == old(Members())
    {
      if guardian.None? {
        return Err(NoGuardianConfigured);
      }
      if k !in validators {
        return Err(UnknownValidator);
      }
      if k !in paused {
        return Err(NotPaused);
      }
      if !verify(guardian.value, UnpausePayload(k), sig) {
        return Err(InvalidGuardianSignature);
      }
      paused := paused - {k};
      return Ok(());
    }

    /** `set_inbound_cap`; no value stands for the two rejections. */
    method SetInboundCap(cap: i128, size: u64, now: u64) returns (r: Option<()>)
      modifies this`maxPerWindow, this`windowSize, this`windowStart, this`windowInboundTotal
      ensures match Configured(old(Inbound()), cap, size, now)
              case Some(w) => r == Some(()) && Inbound() == w && Fresh(w)
              case None => r == None && Inbound() == old(Inbound())
    {
      if cap < 0 || size == 0 {
        return None;
      }
      maxPerWindow, windowSize, windowStart, windowInboundTotal := cap, size, now, 0;
      return Some(());
    }

    /** `set_outbound_cap`. */
    method SetOutboundCap(cap: i128, size: u64, now: u64) returns (r: Option<()>)
      modifies this`maxOutboundPerWindow, this`outboundWindowSize, this`outboundWindowStart, this`windowOutboundTotal
      ensures match Configured(old(Outbound()), cap, size, now)
              case Some(w) => r == Some(()) && Outbound() == w && Fresh(w)
              case None => r == None && Outbound() == old(Outbound())
    {
      if cap < 0 || size == 0 {
        return None;
      }
      maxOutboundPerWindow, outboundWindowSize, outboundWindowStart, windowOutboundTotal := cap, size, now, 0;
      return Some(());
    }

    /** `admit_inbound`: touches the inbound window only. */
    method AdmitInbound(amount: i128, now: u64) returns (r: Result<(), AdmitError>)
      modifies this`windowStart, this`windowInboundTotal
      ensures (Inbound(), r) == Admit(old(Inbound()), Transfer(amount, now))
    {
      if amount < 0 {
        return Err(NegativeAmount);
      }
      if maxPerWindow == 0 {
        return Err(CapIsZero);
      }
      if now >= windowStart && windowStart + windowSize <= U64_MAX && now >= windowStart + windowSize {
        windowStart := now;
        windowInboundTotal := 0;
      }
      if !InI128(windowInboundTotal + amount) {
        return Err(TotalOverflow);
      }
      if windowInboundTotal + amount > maxPerWindow {
        return Err(CapExceeded);
      }
      windowInboundTotal := windowInboundTotal + amount;
      return Ok(());
    }

    /** `admit_outbound`: touches the outbound window only. */
    method AdmitOutbound(amount: i128, now: u64) returns (r: Result<(), AdmitError>)
      modifies this`outboundWindowStart, this`windowOutboundTotal
      ensures (Outbound(), r) == Admit(old(Outbound()), Transfer(amount, now))
    {
      if amount < 0 {
        return Err(NegativeAmount);
      }
      if maxOutboundPerWindow == 0 {
        return Err(CapIsZero);
      }
      if now >= outboundWindowStart && outboundWindowStart + outboundWindowSize <= U64_MAX
         && now >= outboundWindowStart + outboundWindowSize {
        outboundWindowStart := now;
        windowOutboundTotal := 0;
      }
      if !InI128(windowOutboundTotal + amount) {
        return Err(TotalOverflow);
      }
      if windowOutboundTotal + amount > maxOutboundPerWindow {
        return Err(CapExceeded);
      }
      windowOutboundTotal := windowOutboundTotal + amount;
      return Ok(());
    }
  }

  function NewCouncil(initial: seq<Key>, bridgeId: seq<int>): Council {
    Council(0, initial, {}, None, bridgeId, None)
  }

  /** Once a prefix of a proof fails, the whole proof fails with the same error. */
  lemma {:induction false} SignersFailForGood(c: Council, payload: Payload, proofs: seq<Proof>, verify: Verifier, k: nat)
    requires k <= |proofs| && Signers(c, payload, proofs[..k], verify).Err?
    ensures Signers(c, payload, proofs, verify) == Signers(c, payload, proofs[..k], verify)
  {
    if k < |proofs| {
      assert proofs[..|proofs| - 1][..k] == proofs[..k];
      SignersFailForGood(c, payload, proofs[..|proofs| - 1], verify, k);
    } else {
      assert proofs[..k] == proofs;
    }
  }
}
