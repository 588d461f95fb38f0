/** Winternitz one-time signatures as the auth keys use them (`core/src/lib.rs`):
    base-4 digits with a checksum, and addressed hash chains. */
module Wots {
  import opened Bytes

  const WOTS_W: nat := 4
  const MESSAGE_CHAINS: nat := 128
  const CHECKSUM_CHAINS: nat := 5
  const WOTS_CHAINS: nat := 133

  // ----- Digits

  /** The four base-4 digits of a byte, lowest first. */
  function ByteDigits(b: byte): (r: seq<nat>)
    ensures |r| == 4 && forall i :: 0 <= i < 4 ==> r[i] < WOTS_W
  {
    [b % 4, b / 4 % 4, b / 16 % 4, b / 64 % 4]
  }

  function MessageDigits(bytes: Bytes): (r: seq<nat>)
    ensures |r| == 4 * |bytes| && forall i :: 0 <= i < |r| ==> r[i] < WOTS_W
  {
    if bytes == [] then [] else MessageDigits(bytes[..|bytes| - 1]) + ByteDigits(bytes[|bytes| - 1])
  }

  /** How much chain is left over by these digits. */
  function Checksum(digits: seq<nat>): (r: nat)
    requires forall i :: 0 <= i < |digits| ==> digits[i] < WOTS_W
    ensures r <= 3 * |digits|
  {
    if digits == [] then 0 else Checksum(digits[..|digits| - 1]) + (WOTS_W - 1 - digits[|digits| - 1])
  }

  /** The `width` low base-4 digits of `n`, lowest first. */
  function Base4(n: nat, width: nat): (r: seq<nat>)
    ensures |r| == width && forall i :: 0 <= i < width ==> r[i] < WOTS_W
  {
    if width == 0 then [] else [n % 4] + Base4(n / 4, width - 1)
  }

  function FromBase4(digits: seq<nat>): nat
  {
    if digits == [] then 0 else digits[0] + 4 * FromBase4(digits[1..])
  }

  function Digits(msg: Felt): (r: seq<nat>)
    ensures |r| == WOTS_CHAINS && forall i :: 0 <= i < |r| ==> r[i] < WOTS_W
  {
    var digits := MessageDigits(msg);
    digits + Base4(Checksum(digits), CHECKSUM_CHAINS)
  }

  /** `wots_digits`: the inner loop over one byte. */
  method PushByteDigits(digits: seq<nat>, byteValue: byte) returns (r: seq<nat>)
    ensures r == digits + ByteDigits(byteValue)
  {
    r := digits;
    var b := byteValue;
    for k := 0 to 4
      invariant r == digits + ByteDigits(byteValue)[..k]
      invariant b == if k == 0 then byteValue else if k == 1 then byteValue / 4 else if k == 2 then byteValue / 16
                     else if k == 3 then byteValue / 64 else 0
    {
      r := r + [b % 4];
      b := b / 4;
    }
  }

  /** `wots_digits`: the loop over the message. */
  method PushMessageDigits(msg: Felt) returns (digits: seq<nat>)
    ensures digits == MessageDigits(msg)
  {
    hide ByteDigits;
    digits := [];
    for i := 0 to |msg|
      invariant digits == MessageDigits(msg[..i])
    {
      digits := PushByteDigits(digits, msg[i]);
      assert msg[..i + 1][..i] == msg[..i];
    }
    assert msg[..|msg|] == msg;
  }

  /** `wots_digits`: the sum of what is left over. */
  method SumChecksum(digits: seq<nat>) returns (checksum: nat)
    requires forall i :: 0 <= i < |digits| ==> digits[i] < WOTS_W
    ensures checksum == Checksum(digits)
  {
    checksum := 0;
    for i := 0 to |digits|
      invariant checksum == Checksum(digits[..i])
    {
      checksum := checksum + (WOTS_W - 1 - digits[i]);
      assert digits[..i + 1][..i] == digits[..i];
    }
    assert digits[..|digits|] == digits;
  }

  /** `wots_digits`. */
  method WotsDigits(msg: Felt) returns (digits: seq<nat>)
    ensures digits == Digits(msg)
  {
    hide MessageDigits, Checksum;
    digits := PushMessageDigits(msg);
    var cs := SumChecksum(digits);
    for k := 0 to CHECKSUM_CHAINS
      invariant digits + Base4(cs, CHECKSUM_CHAINS - k) == Digits(msg)
    {
      assert Base4(cs, CHECKSUM_CHAINS - k) == [cs % 4] + Base4(cs / 4, CHECKSUM_CHAINS - k - 1);
      digits := digits + [cs % 4];
      cs := cs / 4;
    }
    assert digits[..WOTS_CHAINS] == digits;
    digits := digits[..WOTS_CHAINS];
  }

  lemma ByteDigitsBack(b: byte)
    ensures var d := ByteDigits(b); d[0] + 4 * d[1] + 16 * d[2] + 64 * d[3] == b
  {
    assert b == b % 4 + 4 * (b / 4);
    assert b / 4 == b / 4 % 4 + 4 * (b / 16);
    assert b / 16 == b / 16 % 4 + 4 * (b / 64);
  }

  lemma DigitsInTwo(a: Bytes)
    requires a != []
    ensures var n := |a| - 1;
            MessageDigits(a)[..4 * n] == MessageDigits(a[..n]) && MessageDigits(a)[4 * n..] == ByteDigits(a[n])
  {
    hide ByteDigits;
  }

  /** Digit extraction is injective. */
  lemma {:induction false} MessageDigitsInjective(a: Bytes, b: Bytes)
    requires |a| == |b| && MessageDigits(a) == MessageDigits(b)
    ensures a == b
  {
    hide ByteDigits, MessageDigits;
    if a == [] {
    } else {
      var n := |a| - 1;
      DigitsInTwo(a);
      DigitsInTwo(b);
      ByteDigitsBack(a[n]);
      ByteDigitsBack(b[n]);
      MessageDigitsInjective(a[..n], b[..n]);
      assert a == a[..n] + [a[n]] && b == b[..n] + [b[n]];
    }
  }

  /** Raising digits lowers the checksum, strictly unless nothing was raised. */
  lemma {:induction false} ChecksumFalls(a: seq<nat>, b: seq<nat>)
    requires |a| == |b|
    requires forall i :: 0 <= i < |a| ==> a[i] < WOTS_W && b[i] < WOTS_W
    requires forall i :: 0 <= i < |a| ==> a[i] <= b[i]
    ensures Checksum(a) >= Checksum(b)
    ensures a != b ==> Checksum(a) > Checksum(b)
  {
    if a == [] {
    } else {
      var n := |a| - 1;
      ChecksumFalls(a[..n], b[..n]);
      if a[..n] == b[..n] && a[n] == b[n] {
        assert a == a[..n] + [a[n]] && b == b[..n] + [b[n]];
      }
    }
  }

  lemma {:induction false} Base4Back(n: nat, width: nat)
    requires n < Pow4(width)
    ensures FromBase4(Base4(n, width)) == n
  {
    if width == 0 {
    } else {
      Base4Back(n / 4, width - 1);
      assert Base4(n, width)[1..] == Base4(n / 4, width - 1);
    }
  }

  function Pow4(width: nat): nat
  {
    if width == 0 then 1 else 4 * Pow4(width - 1)
  }

  lemma {:induction false} FromBase4Monotone(a: seq<nat>, b: seq<nat>)
    requires |a| == |b| && forall i :: 0 <= i < |a| ==> a[i] <= b[i]
    ensures FromBase4(a) <= FromBase4(b)
  {
    if a == [] {
    } else {
      FromBase4Monotone(a[1..], b[1..]);
    }
  }

  /** Five base-4 digits hold every checksum. */
  lemma ChecksumFits(digits: seq<nat>)
    requires |digits| == MESSAGE_CHAINS && forall i :: 0 <= i < |digits| ==> digits[i] < WOTS_W
    ensures Checksum(digits) <= 384 && FromBase4(Base4(Checksum(digits), CHECKSUM_CHAINS)) == Checksum(digits)
  {
    assert Pow4(5) == 1024 by {
      assert Pow4(2) == 16 && Pow4(3) == 64;
    }
    Base4Back(Checksum(digits), CHECKSUM_CHAINS);
  }

  /** No message's digits are all at most another message's. */
  lemma DigitsNeverDominated(x: Felt, y: Felt)
    requires x != y
    ensures exists i :: 0 <= i < WOTS_CHAINS && Digits(x)[i] > Digits(y)[i]
  {
    var a, b := MessageDigits(x), MessageDigits(y);
    if forall i :: 0 <= i < WOTS_CHAINS ==> Digits(x)[i] <= Digits(y)[i] {
      forall i | 0 <= i < MESSAGE_CHAINS
        ensures a[i] <= b[i]
      {
        assert Digits(x)[i] == a[i] && Digits(y)[i] == b[i];
      }
      if a == b {
        MessageDigitsInjective(x, y);
      }
      ChecksumFalls(a, b);
      ChecksumFits(a);
      ChecksumFits(b);
      var c, d := Base4(Checksum(a), CHECKSUM_CHAINS), Base4(Checksum(b), CHECKSUM_CHAINS);
      forall i | 0 <= i < CHECKSUM_CHAINS
        ensures c[i] <= d[i]
      {
        assert Digits(x)[MESSAGE_CHAINS + i] == c[i] && Digits(y)[MESSAGE_CHAINS + i] == d[i];
      }
      FromBase4Monotone(c, d);
      assert false;
    }
  }

  /** Two distinct messages have incomparable digit vectors: each has a chain
      where it reaches strictly further than the other. */
  lemma DigitsAreIncomparable(x: Felt, y: Felt)
    requires x != y
    ensures exists i :: 0 <= i < WOTS_CHAINS && Digits(x)[i] > Digits(y)[i]
    ensures exists i :: 0 <= i < WOTS_CHAINS && Digits(x)[i] < Digits(y)[i]
  {
    DigitsNeverDominated(x, y);
    DigitsNeverDominated(y, x);
    var i :| 0 <= i < WOTS_CHAINS && Digits(y)[i] > Digits(x)[i];
    assert Digits(x)[i] < Digits(y)[i];
  }

  // ----- Addresses

  const TAG_XMSS_CHAIN: u64 := 0x0068632D73736D78
  const TAG_XMSS_LTREE: u64 := 0x00746C2D73736D78
  const TAG_XMSS_TREE: u64 := 0x0072742D73736D78

  /** `pack_adrs`: the mask on the last byte changes nothing, as it is zero. */
  function PackAdrs(tag: u64, keyIdx: u32, a: u32, b: u32, c: u32): Felt
  {
    U64Le(tag) + U32Le(keyIdx) + U32Le(a) + U32Le(b) + U32Le(c) + Zeros(8)
  }

  /** Distinct uses have distinct addresses. */
  lemma AddressesAreDistinct(tag: u64, keyIdx: u32, a: u32, b: u32, c: u32,
                             tag': u64, keyIdx': u32, a': u32, b': u32, c': u32)
    requires PackAdrs(tag, keyIdx, a, b, c) == PackAdrs(tag', keyIdx', a', b', c')
    ensures tag == tag' && keyIdx == keyIdx' && a == a' && b == b' && c == c'
  {
    var x, y := PackAdrs(tag, keyIdx, a, b, c), PackAdrs(tag', keyIdx', a', b', c');
    assert x[..8] == U64Le(tag) && y[..8] == U64Le(tag');
    assert x[8..12] == U32Le(keyIdx) && y[8..12] == U32Le(keyIdx');
    assert x[12..16] == U32Le(a) && y[12..16] == U32Le(a');
    assert x[16..20] == U32Le(b) && y[16..20] == U32Le(b');
    assert x[20..24] == U32Le(c) && y[20..24] == U32Le(c');
  }

  // ----- Chains

  /** `blake2s_parts`: one hash over field elements end to end. */
  type PartsHash = seq<Felt> -> Felt

  /** Two distinct inputs with one digest. A hash into 32 bytes has such pairs,
      so the binding laws below name the inputs that would have to be one. */
  predicate HashCollision(h: PartsHash, a: seq<Felt>, b: seq<Felt>)
  {
    a != b && h(a) == h(b)
  }

  function FeltTag(text: Bytes): Felt
    requires |text| <= 16
  {
    LeBytes(FromBe(text), 16) + Zeros(16)
  }

  function FeltFromU32(v: u32): Felt
  {
    U32Le(v) + Zeros(28)
  }

  /** "xmss-sk" and "xmss-ps". */
  const SK_TAG: Bytes := [0x78, 0x6d, 0x73, 0x73, 0x2d, 0x73, 0x6b]
  const PS_TAG: Bytes := [0x78, 0x6d, 0x73, 0x73, 0x2d, 0x70, 0x73]

  function AuthKeySeed(h: PartsHash, ask: Felt, keyIdx: u32): Felt
  {
    h([FeltTag(SK_TAG), ask, FeltFromU32(keyIdx)])
  }

  function AuthPubSeed(h: PartsHash, ask: Felt): Felt
  {
    h([FeltTag(PS_TAG), ask])
  }

  /** `wots_sk_chain`: the secret start of one chain. */
  function SecretStart(h: PartsHash, ask: Felt, keyIdx: u32, chainIdx: u32): Felt
  {
    h([AuthKeySeed(h, ask, keyIdx), FeltFromU32(chainIdx)])
  }

  /** What step `step` of a chain hashes. */
  function StepInput(pubSeed: Felt, keyIdx: u32, chainIdx: u32, step: u32, x: Felt): seq<Felt>
  {
    [pubSeed, PackAdrs(TAG_XMSS_CHAIN, keyIdx, chainIdx, step, 0), x]
  }

  function ChainStep(h: PartsHash, pubSeed: Felt, keyIdx: u32, chainIdx: u32, step: u32, x: Felt): Felt
  {
    h(StepInput(pubSeed, keyIdx, chainIdx, step, x))
  }

  /** `x` moved along its chain from position `start` by `steps`. */
  function Chain(h: PartsHash, pubSeed: Felt, keyIdx: u32, chainIdx: u32, x: Felt, start: nat, steps: nat): Felt
    requires start + steps <= U32_LIMIT
    decreases steps
  {
    if steps == 0 then x
    else ChainStep(h, pubSeed, keyIdx, chainIdx, start + steps - 1,
                   Chain(h, pubSeed, keyIdx, chainIdx, x, start, steps - 1))
  }

  /** `xmss_hash_chain`. */
  method XmssHashChain(h: PartsHash, x: Felt, pubSeed: Felt, keyIdx: u32, chainIdx: u32, start: nat, steps: nat)
    returns (current: Felt)
    requires start + steps <= U32_LIMIT
    ensures current == Chain(h, pubSeed, keyIdx, chainIdx, x, start, steps)
  {
    hide ChainStep;
    current := x;
    for step := start to start + steps
      invariant current == Chain(h, pubSeed, keyIdx, chainIdx, x, start, step - start)
    {
      current := ChainStep(h, pubSeed, keyIdx, chainIdx, step, current);
    }
  }

  /** Walking on from where a walk stopped is one longer walk. */
  lemma {:induction false} ChainsCompose(h: PartsHash, pubSeed: Felt, keyIdx: u32, chainIdx: u32, x: Felt,
                                         start: nat, first: nat, second: nat)
    requires start + first + second <= U32_LIMIT
    ensures var reached := Chain(h, pubSeed, keyIdx, chainIdx, x, start, first);
            Chain(h, pubSeed, keyIdx, chainIdx, reached, start + first, second)
            == Chain(h, pubSeed, keyIdx, chainIdx, x, start, first + second)
    decreases second
  {
    hide ChainStep;
    if second == 0 {
    } else {
      ChainsCompose(h, pubSeed, keyIdx, chainIdx, x, start, first, second - 1);
    }
  }

  /** Walking from `x` and from `y`, step `start + k` hashes two different values to one. */
  predicate WalksCollide(h: PartsHash, pubSeed: Felt, keyIdx: u32, chainIdx: u32, x: Felt, y: Felt, start: nat, k: nat)
    requires start + k < U32_LIMIT
  {
    HashCollision(h,
      StepInput(pubSeed, keyIdx, chainIdx, start + k, Chain(h, pubSeed, keyIdx, chainIdx, x, start, k)),
      StepInput(pubSeed, keyIdx, chainIdx, start + k, Chain(h, pubSeed, keyIdx, chainIdx, y, start, k)))
  }

  ghost predicate WalksAreClean(h: PartsHash, pubSeed: Felt, keyIdx: u32, chainIdx: u32, x: Felt, y: Felt,
                                start: nat, steps: nat)
    requires start + steps <= U32_LIMIT
  {
    forall k: nat :: k < steps ==> !WalksCollide(h, pubSeed, keyIdx, chainIdx, x, y, start, k)
  }

  /** For every hash: two walks of equal length meet without a colliding step
      exactly when they started at the same value. */
  lemma {:induction false} ChainBinds(h: PartsHash, pubSeed: Felt, keyIdx: u32, chainIdx: u32, x: Felt, y: Felt,
                                      start: nat, steps: nat)
    requires start + steps <= U32_LIMIT
    ensures && Chain(h, pubSeed, keyIdx, chainIdx, x, start, steps)
            == Chain(h, pubSeed, keyIdx, chainIdx, y, start, steps)
            && WalksAreClean(h, pubSeed, keyIdx, chainIdx, x, y, start, steps)
            <==> x == y
    decreases steps
  {
    hide PackAdrs;
    if steps == 0 {
    } else {
      ChainBinds(h, pubSeed, keyIdx, chainIdx, x, y, start, steps - 1);
      var a := Chain(h, pubSeed, keyIdx, chainIdx, x, start, steps - 1);
      var b := Chain(h, pubSeed, keyIdx, chainIdx, y, start, steps - 1);
      if WalksAreClean(h, pubSeed, keyIdx, chainIdx, x, y, start, steps) {
        assert !WalksCollide(h, pubSeed, keyIdx, chainIdx, x, y, start, steps - 1);
        assert StepInput(pubSeed, keyIdx, chainIdx, start + steps - 1, a)[2] == a;
        assert StepInput(pubSeed, keyIdx, chainIdx, start + steps - 1, b)[2] == b;
      }
    }
  }
}
