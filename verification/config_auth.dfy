/** Who can configure the rollup: the kernel's one-shot configurations joined
    with the signature scheme that guards them. */
module ConfigAuth {
  import opened Bytes
  import opened KernelState
  import opened KernelStore
  import opened KernelWire
  import opened Protocol
  import opened WireFields
  import opened Wots
  import opened WotsAuth
  import opened Wrappers

  const VERIFIER_KEY_INDEX: u32 := 0
  const BRIDGE_KEY_INDEX: u32 := 1

  /** "tzel-config-verifier" and "tzel-config-bridge". */
  const VERIFIER_DOMAIN: Bytes := [0x74, 0x7a, 0x65, 0x6c, 0x2d, 0x63, 0x6f, 0x6e, 0x66, 0x69, 0x67, 0x2d,
                                   0x76, 0x65, 0x72, 0x69, 0x66, 0x69, 0x65, 0x72]
  const BRIDGE_DOMAIN: Bytes := [0x74, 0x7a, 0x65, 0x6c, 0x2d, 0x63, 0x6f, 0x6e, 0x66, 0x69, 0x67, 0x2d,
                                 0x62, 0x72, 0x69, 0x64, 0x67, 0x65]

  /** What each configuration's signature covers. */
  function VerifierInput(config: VerifierConfig): Bytes
  {
    VERIFIER_DOMAIN + EncodeConfig(config)
  }

  /** A ticketer too long for the wire has no encoding. */
  function BridgeInput(ticketer: Text): Option<Bytes>
  {
    match EncodeLimited(MAX_ACCOUNT_ID_BYTES, ticketer)
    case None => None
    case Some(encoded) => Some(BRIDGE_DOMAIN + encoded)
  }

  /** `kernel_verifier_config_sighash`. */
  function VerifierSighash(hash: Bytes -> Felt, config: VerifierConfig): Felt
  {
    hash(VerifierInput(config))
  }

  /** `kernel_bridge_config_sighash`. */
  function BridgeSighash(hash: Bytes -> Felt, ticketer: Text): Option<Felt>
  {
    match BridgeInput(ticketer)
    case None => None
    case Some(input) => Some(hash(input))
  }

  /** Two distinct byte strings with one digest. */
  predicate DigestsCollide(hash: Bytes -> Felt, a: Bytes, b: Bytes)
  {
    a != b && hash(a) == hash(b)
  }

  /** For every hash: the signed digest determines the configuration, up to a
      collision of the two encodings. */
  lemma SighashBindsConfig(hash: Bytes -> Felt, a: VerifierConfig, b: VerifierConfig)
    ensures VerifierSighash(hash, a) == VerifierSighash(hash, b)
            <==> a == b || DigestsCollide(hash, VerifierInput(a), VerifierInput(b))
  {
    var x, y := VerifierInput(a), VerifierInput(b);
    assert x[20..] == EncodeConfig(a) && y[20..] == EncodeConfig(b);
    ConfigRoundTrip(a);
    ConfigRoundTrip(b);
  }

  lemma SighashBindsTicketer(hash: Bytes -> Felt, a: Text, b: Text)
    requires BridgeInput(a).Some? && BridgeInput(b).Some?
    ensures BridgeSighash(hash, a) == BridgeSighash(hash, b)
            <==> a == b || DigestsCollide(hash, BridgeInput(a).value, BridgeInput(b).value)
  {
    var x, y := BridgeInput(a).value, BridgeInput(b).value;
    assert x[18..] == EncodeLimited(MAX_ACCOUNT_ID_BYTES, a).value
           && y[18..] == EncodeLimited(MAX_ACCOUNT_ID_BYTES, b).value;
    WholeLimitedIsExact(MAX_ACCOUNT_ID_BYTES, a, x[18..]);
    WholeLimitedIsExact(MAX_ACCOUNT_ID_BYTES, b, y[18..]);
  }

  /** The two domains keep the two kinds of digest apart, again up to a collision. */
  lemma SighashesApart(hash: Bytes -> Felt, config: VerifierConfig, ticketer: Text)
    requires BridgeInput(ticketer).Some?
    ensures BridgeSighash(hash, ticketer) == Some(VerifierSighash(hash, config))
            <==> DigestsCollide(hash, BridgeInput(ticketer).value, VerifierInput(config))
  {
    var x, y := BridgeInput(ticketer).value, VerifierInput(config);
    assert x[12] == 0x62 && y[12] == 0x76;
  }

  predicate VerifierCheckIs(w: World, h: PartsHash, ask: Felt, config: VerifierConfig, signature: seq<Felt>)
  {
    w.verifierSigned(config, signature) ==
      VerifyAgainstLeaf(h, VerifierSighash(w.crypto.hash, config), AuthPubSeed(h, ask), VERIFIER_KEY_INDEX,
                        signature, AuthLeaf(h, ask, VERIFIER_KEY_INDEX)).Pass?
  }

  predicate BridgeCheckIs(w: World, h: PartsHash, ask: Felt, ticketer: Text, signature: seq<Felt>)
  {
    w.bridgeSigned(ticketer, signature) ==
      (BridgeSighash(w.crypto.hash, ticketer).Some?
       && VerifyAgainstLeaf(h, BridgeSighash(w.crypto.hash, ticketer).value, AuthPubSeed(h, ask), BRIDGE_KEY_INDEX,
                            signature, AuthLeaf(h, ask, BRIDGE_KEY_INDEX)).Pass?)
  }

  /** A kernel built with the seed and leaves of the administrator's key `ask`. */
  ghost predicate BuiltFor(w: World, h: PartsHash, ask: Felt)
  {
    && (forall config, signature :: VerifierCheckIs(w, h, ask, config, signature))
    && (forall ticketer, signature :: BridgeCheckIs(w, h, ask, ticketer, signature))
  }

  /** The surroundings `w` with the checks of the key `ask` compiled in. */
  function KernelFor(w: World, h: PartsHash, ask: Felt): World
  {
    var hash := w.crypto.hash;
    w.(verifierSigned := (config: VerifierConfig, signature: seq<Felt>) =>
         VerifyAgainstLeaf(h, VerifierSighash(hash, config), AuthPubSeed(h, ask), VERIFIER_KEY_INDEX,
                           signature, AuthLeaf(h, ask, VERIFIER_KEY_INDEX)).Pass?,
       bridgeSigned := (ticketer: Text, signature: seq<Felt>) =>
         BridgeSighash(hash, ticketer).Some?
         && VerifyAgainstLeaf(h, BridgeSighash(hash, ticketer).value, AuthPubSeed(h, ask), BRIDGE_KEY_INDEX,
                              signature, AuthLeaf(h, ask, BRIDGE_KEY_INDEX)).Pass?)
  }

  lemma KernelForIsBuiltFor(w: World, h: PartsHash, ask: Felt)
    ensures BuiltFor(KernelFor(w, h, ask), h, ask)
  {
    hide VerifyAgainstLeaf, AuthPubSeed, AuthLeaf, VerifierSighash, BridgeSighash;
  }

  /** For every hash: a verifier configuration takes effect under a signature
      that meets no collision if and only if none has yet, it is usable, and the
      signature is the very one the administrator's key makes for it. */
  lemma OnlyTheAdminConfiguresVerifier(w: World, h: PartsHash, ask: Felt, l: Ledger, config: VerifierConfig,
                                       signature: seq<Felt>)
    requires BuiltFor(w, h, ask)
    ensures ApplyConfigureVerifier(w, l, config, signature).result.Configured?
            && SignatureIsClean(h, ask, VERIFIER_KEY_INDEX, VerifierSighash(w.crypto.hash, config), signature)
            <==> l.verifier.None? && w.verifierUsable(config)
                 && signature == WotsSign(h, ask, VERIFIER_KEY_INDEX, VerifierSighash(w.crypto.hash, config))
  {
    hide VerifyAgainstLeaf, AuthPubSeed, AuthLeaf, WotsSign, VerifierSighash, SignatureIsClean;
    assert VerifierCheckIs(w, h, ask, config, signature);
    OnlyTheSignatureVerifies(h, ask, VERIFIER_KEY_INDEX, VerifierSighash(w.crypto.hash, config), signature);
  }

  /** The same for the bridge's ticketer. */
  lemma OnlyTheAdminConfiguresBridge(w: World, h: PartsHash, ask: Felt, l: Ledger, ticketer: Text, signature: seq<Felt>)
    requires BuiltFor(w, h, ask)
    ensures ApplyConfigureBridge(w, l, ticketer, signature).result.Configured?
            ==> BridgeSighash(w.crypto.hash, ticketer).Some?
    ensures BridgeSighash(w.crypto.hash, ticketer).Some? ==>
              var digest := BridgeSighash(w.crypto.hash, ticketer).value;
              (&& ApplyConfigureBridge(w, l, ticketer, signature).result.Configured?
               && SignatureIsClean(h, ask, BRIDGE_KEY_INDEX, digest, signature)
               <==> l.ticketer.None? && w.crypto.validContract(ticketer) && w.originated(ticketer)
                    && signature == WotsSign(h, ask, BRIDGE_KEY_INDEX, digest))
  {
    hide VerifyAgainstLeaf, AuthPubSeed, AuthLeaf, WotsSign, BridgeSighash, SignatureIsClean;
    assert BridgeCheckIs(w, h, ask, ticketer, signature);
    if BridgeSighash(w.crypto.hash, ticketer).Some? {
      OnlyTheSignatureVerifies(h, ask, BRIDGE_KEY_INDEX, BridgeSighash(w.crypto.hash, ticketer).value, signature);
    }
  }

  /** Having seen the administrator configure one verifier, nobody can present
      another without walking a chain of that signature backwards, a collision
      at a chain step or L-tree node, or one of the two encodings. */
  lemma OtherConfigsWalkBack(w: World, h: PartsHash, ask: Felt, l: Ledger, config: VerifierConfig,
                             other: VerifierConfig, forged: seq<Felt>)
    requires BuiltFor(w, h, ask) && config != other
    requires ApplyConfigureVerifier(w, l, other, forged).result.Configured?
    ensures |forged| == WOTS_CHAINS
    ensures var signed, digest := VerifierSighash(w.crypto.hash, config), VerifierSighash(w.crypto.hash, other);
            || (exists j: nat :: WalksBack(h, ask, VERIFIER_KEY_INDEX, signed, digest, forged, j))
            || !SignatureIsClean(h, ask, VERIFIER_KEY_INDEX, digest, forged)
            || DigestsCollide(w.crypto.hash, VerifierInput(config), VerifierInput(other))
  {
    SighashBindsConfig(w.crypto.hash, config, other);
    var signed, digest := VerifierSighash(w.crypto.hash, config), VerifierSighash(w.crypto.hash, other);
    assert VerifierCheckIs(w, h, ask, other, forged);
    hide SignatureIsClean, AuthPubSeed, AuthLeaf, VerifierSighash, WalksBack, LTree, RecoverPk;
    if signed != digest {
      ForgeryWalksBack(h, ask, VERIFIER_KEY_INDEX, signed, digest, forged);
    }
  }

  /** The same for the ticketer: whoever fixes another bridge pays the same price. */
  lemma OtherTicketersWalkBack(w: World, h: PartsHash, ask: Felt, l: Ledger, ticketer: Text, other: Text,
                               forged: seq<Felt>)
    requires BuiltFor(w, h, ask) && ticketer != other && BridgeInput(ticketer).Some?
    requires ApplyConfigureBridge(w, l, other, forged).result.Configured?
    ensures |forged| == WOTS_CHAINS && BridgeInput(other).Some?
    ensures var signed, digest := BridgeSighash(w.crypto.hash, ticketer).value,
            BridgeSighash(w.crypto.hash, other).value;
            || (exists j: nat :: WalksBack(h, ask, BRIDGE_KEY_INDEX, signed, digest, forged, j))
            || !SignatureIsClean(h, ask, BRIDGE_KEY_INDEX, digest, forged)
            || DigestsCollide(w.crypto.hash, BridgeInput(ticketer).value, BridgeInput(other).value)
  {
    assert BridgeCheckIs(w, h, ask, other, forged);
    SighashBindsTicketer(w.crypto.hash, ticketer, other);
    var signed, digest := BridgeSighash(w.crypto.hash, ticketer).value, BridgeSighash(w.crypto.hash, other).value;
    hide SignatureIsClean, AuthPubSeed, AuthLeaf, WalksBack, LTree, RecoverPk, EncodeLimited;
    if signed != digest {
      ForgeryWalksBack(h, ask, BRIDGE_KEY_INDEX, signed, digest, forged);
    }
  }
}
