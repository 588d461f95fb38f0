/** BLAKE2s as RFC 7693 defines it: mixing, compression, and the digest of a
    message cut into padded blocks. */
module Blake2sSpec {

  type word = bv32
  type Octets = seq<bv8>

  const BLOCK_BYTES: nat := 64
  const OUT_BYTES: nat := 32
  const PERSONAL_BYTES: nat := 8
  const WORD_LIMIT: nat := 0x1_0000_0000
  const COUNTER_LIMIT: nat := 0x1_0000_0000_0000_0000
  const ALL_ONES: word := 0xFFFF_FFFF

  const IV: seq<word> := [
    0x6A09E667, 0xBB67AE85, 0x3C6EF372, 0xA54FF53A,
    0x510E527F, 0x9B05688C, 0x1F83D9AB, 0x5BE0CD19]

  type Pos = x: int | 0 <= x < 16

  /** The message schedule (section 2.7). */
  const SIGMA: seq<seq<Pos>> := [
    [ 0, 1, 2, 3, 4, 5, 6, 7, 8, 9,10,11,12,13,14,15],
    [14,10, 4, 8, 9,15,13, 6, 1,12, 0, 2,11, 7, 5, 3],
    [11, 8,12, 0, 5, 2,15,13,10,14, 3, 6, 7, 1, 9, 4],
    [ 7, 9, 3, 1,13,12,11,14, 2, 6, 5,10, 4, 0,15, 8],
    [ 9, 0, 5, 7, 2, 4,10,15,14, 1,11,12, 6, 8, 3,13],
    [ 2,12, 6,10, 0,11, 8, 3, 4,13, 7, 5,15,14, 1, 9],
    [12, 5, 1,15,14,13, 4,10, 0, 7, 6, 3, 9, 2, 8,11],
    [13,11, 7,14,12, 1, 3, 9, 5, 0,15, 4, 8, 6, 2,10],
    [ 6,15,14, 9,11, 3, 0, 8,12, 2,13, 7, 1, 4,10, 5],
    [10, 2, 8, 4, 7, 6, 1, 5,15,11, 9,14, 3,12,13, 0]]

  /** Where the eight mixing steps of a round work: columns, then diagonals. */
  const LANES: seq<(Pos, Pos, Pos, Pos)> := [
    (0, 4, 8, 12), (1, 5, 9, 13), (2, 6, 10, 14), (3, 7, 11, 15),
    (0, 5, 10, 15), (1, 6, 11, 12), (2, 7, 8, 13), (3, 4, 9, 14)]

  type State16 = s: seq<word> | |s| == 16 witness seq(16, _ => 0)
  type State8 = s: seq<word> | |s| == 8 witness seq(8, _ => 0)
  type Block = s: Octets | |s| == BLOCK_BYTES witness seq(BLOCK_BYTES, _ => 0)

  /** A little-endian word. */
  function Load32(bs: Octets, at: nat): word
    requires at + 4 <= |bs|
  {
    (bs[at] as word) | ((bs[at + 1] as word) << 8) | ((bs[at + 2] as word) << 16) | ((bs[at + 3] as word) << 24)
  }

  function Words(block: Block): State16
  {
    seq(16, i requires 0 <= i < 16 => Load32(block, 4 * i))
  }

  function ToWord(n: nat): word
    requires n < WORD_LIMIT
  {
    n as word
  }

  function Xor(a: word, b: word): word
  {
    a ^ b
  }

  /** Addition modulo 2^32. */
  function Add(a: word, b: word): word
  {
    a + b
  }

  /** Exclusive or, then a right rotation. */
  function Turn(x: word, y: word, n: nat): word
    requires n < 32
  {
    (x ^ y).RotateRight(n)
  }

  /** The first half of the mixing function G (section 3.1), and with other
      rotations the second. */
  function HalfMix(v: State16, a: Pos, b: Pos, c: Pos, d: Pos, x: word, r1: nat, r2: nat): State16
    requires r1 < 32 && r2 < 32
  {
    var v1 := v[a := Add(Add(v[a], v[b]), x)];
    var v2 := v1[d := Turn(v1[d], v1[a], r1)];
    var v3 := v2[c := Add(v2[c], v2[d])];
    v3[b := Turn(v3[b], v3[c], r2)]
  }

  /** Mixing function G. */
  function Mix(v: State16, lane: (Pos, Pos, Pos, Pos), x: word, y: word): State16
  {
    HalfMix(HalfMix(v, lane.0, lane.1, lane.2, lane.3, x, 16, 12), lane.0, lane.1, lane.2, lane.3, y, 8, 7)
  }

  /** The first `steps` mixing steps of round `r`. */
  function Mixed(v: State16, m: State16, r: nat, steps: nat): State16
    requires r < 10 && steps <= 8
  {
    if steps == 0 then v
    else Mix(Mixed(v, m, r, steps - 1), LANES[steps - 1], m[SIGMA[r][2 * steps - 2]], m[SIGMA[r][2 * steps - 1]])
  }

  function Rounds(v: State16, m: State16, rounds: nat): State16
    requires rounds <= 10
  {
    if rounds == 0 then v else Mixed(Rounds(v, m, rounds - 1), m, rounds - 1, 8)
  }

  /** The working vector at the start of a compression. */
  function Vector(h: State8, t: nat, last: bool): State16
  {
    h + [IV[0], IV[1], IV[2], IV[3],
         Xor(ToWord(t % WORD_LIMIT), IV[4]), Xor(ToWord(t / WORD_LIMIT % WORD_LIMIT), IV[5]),
         Xor(if last then ALL_ONES else 0, IV[6]), Xor(0, IV[7])]
  }

  /** Compression function F (section 3.2). */
  function F(h: State8, block: Block, t: nat, last: bool): State8
  {
    var v := Rounds(Vector(h, t, last), Words(block), 10);
    seq(8, i requires 0 <= i < 8 => Xor(h[i], Xor(v[i], v[i + 8])))
  }

  function ZeroOctets(n: nat): (r: Octets)
    ensures |r| == n
  {
    seq(n, _ => 0)
  }

  /** The number of blocks of a message: an empty one still has a block. */
  function BlockCount(n: nat): (r: nat)
    ensures r > 0 && n <= r * BLOCK_BYTES
  {
    if n == 0 then 1 else (n + 63) / 64
  }

  /** Block `i` of the message, zero-padded. */
  function BlockAt(data: Octets, i: nat): Block
    requires i < BlockCount(|data|)
  {
    (data + ZeroOctets(BlockCount(|data|) * BLOCK_BYTES - |data|))[BLOCK_BYTES * i..BLOCK_BYTES * (i + 1)]
  }

  /** The chaining value before block `i`. */
  function Chained(h0: State8, data: Octets, i: nat): State8
    requires i < BlockCount(|data|)
  {
    if i == 0 then h0
    else F(Chained(h0, data, i - 1), BlockAt(data, i - 1), BLOCK_BYTES * i, false)
  }

  function Store32(w: word): (r: Octets)
    ensures |r| == 4
  {
    [(w & 0xFF) as bv8, ((w >> 8) & 0xFF) as bv8, ((w >> 16) & 0xFF) as bv8, ((w >> 24) & 0xFF) as bv8]
  }

  function StoreAll(h: seq<word>): (r: Octets)
    ensures |r| == 4 * |h|
  {
    if h == [] then [] else StoreAll(h[..|h| - 1]) + Store32(h[|h| - 1])
  }

  /** The digest (section 3.3, without a key): every block but the last with the
      bytes so far as counter, the last with the message length and the final flag. */
  function Digest(h0: State8, data: Octets, outlen: nat): Octets
    requires outlen <= OUT_BYTES
  {
    var last := BlockCount(|data|) - 1;
    StoreAll(F(Chained(h0, data, last), BlockAt(data, last), |data| % COUNTER_LIMIT, true))[..outlen]
  }

  // ----- Initial values

  /** The parameter block: digest length, fanout and depth 1, personalisation. */
  function ParamBlock(outlen: bv8, personal: Octets): (p: Octets)
    ensures |p| == 32
  {
    var copied := if |personal| < PERSONAL_BYTES then personal + ZeroOctets(PERSONAL_BYTES - |personal|)
        else personal[..PERSONAL_BYTES];
    [outlen, 0, 1, 1] + ZeroOctets(20) + copied
  }

  function InitialState(param: Octets): State8
    requires |param| == 32
  {
    seq(8, i requires 0 <= i < 8 => IV[i] ^ Load32(param, 4 * i))
  }

  lemma PlainParameterWords(outlen: bv8, i: nat)
    requires i < 8
    ensures Load32(ParamBlock(outlen, []), 4 * i) == if i == 0 then 0x0101_0000 ^ (outlen as word) else 0
  {
    var p := ParamBlock(outlen, []);
    if i > 0 {
      assert p[4 * i] == 0 && p[4 * i + 1] == 0 && p[4 * i + 2] == 0 && p[4 * i + 3] == 0;
    }
  }

  /** Without personalisation the initial state is that of section 3.3: only the
      first word differs from the IV, by 0x01010000 and the digest length. */
  lemma PlainInitialState(outlen: bv8)
    ensures InitialState(ParamBlock(outlen, [])) == IV[0 := IV[0] ^ (0x0101_0000 ^ (outlen as word))]
  {
    hide Load32, ParamBlock;
    forall i | 0 <= i < 8
      ensures Load32(ParamBlock(outlen, []), 4 * i) == if i == 0 then 0x0101_0000 ^ (outlen as word) else 0
    {
      PlainParameterWords(outlen, i);
    }
    assert Load32(ParamBlock(outlen, []), 4 * 0) == 0x0101_0000 ^ (outlen as word);
  }
}
