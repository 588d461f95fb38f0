/** The streaming BLAKE2s of `ocaml/protocol/blake2s_stubs.c`, proved against
    the block definition of RFC 7693. */
module Blake2s {
  import opened Blake2sSpec

  function Min(a: nat, b: nat): nat
  {
    if a < b then a else b
  }

  /** `ror32(x ^ y, n)`. */
  function Ror32Xor(x: word, y: word, n: nat): word
    requires 0 < n < 32
  {
    ((x ^ y) >> n) | ((x ^ y) << (32 - n))
  }

  predicate IsTurn(x: word, y: word, n: nat)
    requires 0 < n < 32
  {
    Ror32Xor(x, y, n) == Turn(x, y, n)
  }

  /** The shifts of `ror32` make a rotation, for each distance in use. */
  lemma Ror32IsRotation(x: word, y: word)
    ensures IsTurn(x, y, 16) && IsTurn(x, y, 12) && IsTurn(x, y, 8) && IsTurn(x, y, 7)
  {
  }

  function PairOf(t0: nat, t1: nat): nat
  {
    t0 + WORD_LIMIT * t1
  }

  /** Adding to a counter kept in two words, with the carry found by comparison. */
  lemma CounterAdds(t0: nat, t1: nat, n: nat, total: nat)
    requires t0 < WORD_LIMIT && t1 < WORD_LIMIT && n < WORD_LIMIT && PairOf(t0, t1) == total % COUNTER_LIMIT
    ensures var u0 := (t0 + n) % WORD_LIMIT;
            var u1 := (t1 + if u0 < n then 1 else 0) % WORD_LIMIT;
            PairOf(u0, u1) == (total + n) % COUNTER_LIMIT
  {
    var sum := PairOf(t0, t1) + n;
    AddWraps(total, n, PairOf(t0, t1));
    assert COUNTER_LIMIT == WORD_LIMIT * WORD_LIMIT;
    if t0 + n >= WORD_LIMIT {
      assert (t0 + n) % WORD_LIMIT == t0 + n - WORD_LIMIT;
      assert t1 == WORD_LIMIT - 1 ==> (t1 + 1) % WORD_LIMIT == 0;
    }
  }

  /** Adding less than the limit to a remainder wraps at most once. */
  lemma AddWraps(total: nat, n: nat, rest: nat)
    requires n < WORD_LIMIT && rest == total % COUNTER_LIMIT
    ensures (total + n) % COUNTER_LIMIT == if rest + n >= COUNTER_LIMIT then rest + n - COUNTER_LIMIT else rest + n
  {
  }

  /** The two words of a counter are what the compression function takes from it. */
  lemma CounterWords(t0: nat, t1: nat)
    requires t0 < WORD_LIMIT && t1 < WORD_LIMIT
    ensures PairOf(t0, t1) % WORD_LIMIT == t0 && PairOf(t0, t1) / WORD_LIMIT % WORD_LIMIT == t1
  {
  }

  /** Half of the macro `G` on the working vector. */
  method HalfG(v: array<word>, a: Pos, b: Pos, c: Pos, d: Pos, x: word, r1: nat, r2: nat)
    requires v.Length == 16 && ((r1 == 16 && r2 == 12) || (r1 == 8 && r2 == 7))
    modifies v
    ensures v[..] == HalfMix(old(v[..]), a, b, c, d, x, r1, r2)
  {
    hide Add, Turn, Ror32Xor;
    ghost var s := v[..];
    v[a] := Add(Add(v[a], v[b]), x);
    ghost var s1 := s[a := Add(Add(s[a], s[b]), x)];
    assert v[..] == s1;
    Ror32IsRotation(v[d], v[a]);
    v[d] := Ror32Xor(v[d], v[a], r1);
    ghost var s2 := s1[d := Turn(s1[d], s1[a], r1)];
    assert v[..] == s2;
    v[c] := Add(v[c], v[d]);
    ghost var s3 := s2[c := Add(s2[c], s2[d])];
    assert v[..] == s3;
    Ror32IsRotation(v[b], v[c]);
    v[b] := Ror32Xor(v[b], v[c], r2);
    assert v[..] == s3[b := Turn(s3[b], s3[c], r2)];
  }

  /** The macro `G`. */
  method G(v: array<word>, m: array<word>, r: nat, i: nat, lane: (Pos, Pos, Pos, Pos))
    requires v != m && v.Length == 16 && m.Length == 16 && r < 10 && i < 8
    modifies v
    ensures v[..] == Mix(old(v[..]), lane, m[SIGMA[r][2 * i]], m[SIGMA[r][2 * i + 1]])
  {
    hide HalfMix;
    var (a, b, c, d) := lane;
    var x, y := m[SIGMA[r][2 * i]], m[SIGMA[r][2 * i + 1]];
    HalfG(v, a, b, c, d, x, 16, 12);
    HalfG(v, a, b, c, d, y, 8, 7);
  }

  lemma MixedStep(v: State16, m: State16, r: nat, i: nat)
    requires r < 10 && i < 8
    ensures Mixed(v, m, r, 0) == v
    ensures Mixed(v, m, r, i + 1) == Mix(Mixed(v, m, r, i), LANES[i], m[SIGMA[r][2 * i]], m[SIGMA[r][2 * i + 1]])
  {
    hide Mix;
  }

  /** `ROUND(r)`: the eight lanes in turn. */
  method Round(v: array<word>, m: array<word>, r: nat)
    requires v != m && v.Length == 16 && m.Length == 16 && r < 10
    modifies v
    ensures v[..] == Mixed(old(v[..]), m[..], r, 8)
  {
    hide Mix, Mixed;
    MixedStep(v[..], m[..], r, 0);
    for i := 0 to 8
      invariant v[..] == Mixed(old(v[..]), m[..], r, i)
    {
      MixedStep(old(v[..]), m[..], r, i);
      G(v, m, r, i, LANES[i]);
    }
  }

  lemma RoundsStep(v: State16, m: State16, r: nat)
    requires r < 10
    ensures Rounds(v, m, 0) == v && Rounds(v, m, r + 1) == Mixed(Rounds(v, m, r), m, r, 8)
  {
    hide Mixed;
  }

  /** The parts of a concatenation that a shorter message shares. */
  function FullBlock(data: Octets, i: nat): Block
    requires BLOCK_BYTES * (i + 1) <= |data|
  {
    data[BLOCK_BYTES * i..BLOCK_BYTES * (i + 1)]
  }

  /** The chaining value after `k` full blocks that are not the last. */
  function Absorbed(h0: State8, data: Octets, k: nat): State8
    requires BLOCK_BYTES * k <= |data|
  {
    if k == 0 then h0
    else F(Absorbed(h0, data, k - 1), FullBlock(data, k - 1), (BLOCK_BYTES * k) % COUNTER_LIMIT, false)
  }

  lemma {:induction false} AbsorbedPrefix(h0: State8, data: Octets, more: Octets, k: nat)
    requires BLOCK_BYTES * k <= |data|
    ensures Absorbed(h0, data + more, k) == Absorbed(h0, data, k)
  {
    hide F;
    if k == 0 {
    } else {
      AbsorbedPrefix(h0, data, more, k - 1);
      assert FullBlock(data + more, k - 1) == FullBlock(data, k - 1);
    }
  }

  /** The compression only looks at the counter modulo 2^64. */
  lemma CounterWraps(h: State8, block: Block, t: nat, last: bool)
    ensures F(h, block, t % COUNTER_LIMIT, last) == F(h, block, t, last)
  {
    hide Rounds, Words;
    WordsOfCounter(t);
    assert Vector(h, t % COUNTER_LIMIT, last) == Vector(h, t, last);
    hide Vector;
  }

  lemma WordsOfCounter(t: nat)
    ensures (t % COUNTER_LIMIT) % WORD_LIMIT == t % WORD_LIMIT
    ensures (t % COUNTER_LIMIT) / WORD_LIMIT % WORD_LIMIT == t / WORD_LIMIT % WORD_LIMIT
  {
    var q, r := t / COUNTER_LIMIT, t % COUNTER_LIMIT;
    assert t == WORD_LIMIT * (WORD_LIMIT * q) + r;
    assert t / WORD_LIMIT == WORD_LIMIT * q + r / WORD_LIMIT;
  }

  lemma {:induction false} AbsorbedIsChained(h0: State8, data: Octets, k: nat)
    requires k < BlockCount(|data|)
    ensures Absorbed(h0, data, k) == Chained(h0, data, k)
  {
    hide F;
    if k == 0 {
    } else {
      AbsorbedIsChained(h0, data, k - 1);
      assert FullBlock(data, k - 1) == BlockAt(data, k - 1);
      CounterWraps(Chained(h0, data, k - 1), BlockAt(data, k - 1), BLOCK_BYTES * k, false);
    }
  }

  /** `blake2s_state`. */
  class Context {
    const h: array<word>
    const buf: array<bv8>
    const outlen: nat
    var t0: nat
    var t1: nat
    var f0: word
    var f1: word
    var buflen: nat
    var lastNode: bool
    ghost const h0: State8
    ghost var data: Octets

    ghost predicate Shape()
      reads this
    {
      && h.Length == 8 && buf.Length == BLOCK_BYTES && outlen <= OUT_BYTES
      && t0 < WORD_LIMIT && t1 < WORD_LIMIT && f1 == 0 && !lastNode
    }

    /** After any updates: all blocks but the last are absorbed, at least one
        byte of a nonempty message is kept back, and the counter counts. */
    ghost predicate Valid()
      reads this, h, buf
    {
      && Shape() && f0 == 0
      && buflen <= BLOCK_BYTES && buflen <= |data| && (|data| > 0 ==> buflen > 0)
      && var k := (|data| - buflen) / BLOCK_BYTES;
      && |data| == BLOCK_BYTES * k + buflen
      && h[..] == Absorbed(h0, data, k)
      && PairOf(t0, t1) == (BLOCK_BYTES * k) % COUNTER_LIMIT
      && buf[..buflen] == data[BLOCK_BYTES * k..]
    }

    /** `blake2s_init_param`. */
    constructor (param: Octets, outlen: nat)
      requires |param| == 32 && outlen <= OUT_BYTES
      ensures Valid() && data == [] && h0 == InitialState(param) && this.outlen == outlen
      ensures fresh(h) && fresh(buf)
    {
      h := new word[8](i requires 0 <= i < 8 => IV[i] ^ Load32(param, 4 * i));
      buf := new bv8[BLOCK_BYTES](_ => 0);
      this.outlen := outlen;
      t0, t1, f0, f1, buflen, lastNode := 0, 0, 0, 0, 0, false;
      h0 := InitialState(param);
      data := [];
      new;
      assert h[..] == h0;
    }

    /** The working vector a compression starts from. */
    method LoadVector() returns (v: array<word>)
      requires Shape() && (f0 == 0 || f0 == ALL_ONES)
      ensures fresh(v) && v[..] == Vector(h[..], PairOf(t0, t1), f0 == ALL_ONES)
    {
      hide Xor, ToWord, PairOf;
      CounterWords(t0, t1);
      ghost var upper := Upper(t0, t1, f0, f1);
      assert Vector(h[..], PairOf(t0, t1), f0 == ALL_ONES) == h[..] + upper;
      hide Vector;
      v := new word[16](_ => 0);
      forall i | 0 <= i < 8 {
        v[i] := h[i];
      }
      LoadUpper(v);
      assert v[..] == v[..8] + v[8..];
    }

    static function Upper(t0: nat, t1: nat, f0: word, f1: word): State8
      requires t0 < WORD_LIMIT && t1 < WORD_LIMIT
    {
      [IV[0], IV[1], IV[2], IV[3], Xor(ToWord(t0), IV[4]), Xor(ToWord(t1), IV[5]), Xor(f0, IV[6]), Xor(f1, IV[7])]
    }

    method LoadUpper(v: array<word>)
      requires v.Length == 16 && t0 < WORD_LIMIT && t1 < WORD_LIMIT
      modifies v
      ensures v[..8] == old(v[..8]) && v[8..] == Upper(t0, t1, f0, f1)
    {
      hide Xor, ToWord;
      v[8], v[9], v[10], v[11] := IV[0], IV[1], IV[2], IV[3];
      v[12], v[13] := Xor(ToWord(t0), IV[4]), Xor(ToWord(t1), IV[5]);
      v[14], v[15] := Xor(f0, IV[6]), Xor(f1, IV[7]);
    }

    /** `blake2s_compress` of a 64-byte block. */
    method Compress(block: Octets)
      requires Shape() && |block| == BLOCK_BYTES && (f0 == 0 || f0 == ALL_ONES)
      modifies h
      ensures h[..] == F(old(h[..]), block, PairOf(t0, t1), f0 == ALL_ONES)
    {
      hide Vector, Load32, Rounds, Xor;
      var m := new word[16](i requires 0 <= i < 16 => Load32(block, 4 * i));
      assert m[..] == Words(block);
      hide Words;
      var v := LoadVector();
      AllRounds(v, m);
      forall i | 0 <= i < 8 {
        h[i] := Xor(h[i], Xor(v[i], v[i + 8]));
      }
    }

    static method AllRounds(v: array<word>, m: array<word>)
      requires v != m && v.Length == 16 && m.Length == 16
      modifies v
      ensures v[..] == Rounds(old(v[..]), m[..], 10)
    {
      hide Mixed, Rounds;
      RoundsStep(v[..], m[..], 0);
      for r := 0 to 10
        invariant v[..] == Rounds(old(v[..]), m[..], r)
      {
        RoundsStep(old(v[..]), m[..], r);
        Round(v, m, r);
      }
    }

    /** Count `n` more bytes. */
    method Count(n: nat, ghost total: nat)
      requires Shape() && n <= BLOCK_BYTES && PairOf(t0, t1) == total % COUNTER_LIMIT
      modifies this`t0, this`t1
      ensures Shape() && PairOf(t0, t1) == (total + n) % COUNTER_LIMIT
    {
      CounterAdds(t0, t1, n, total);
      t0 := (t0 + n) % WORD_LIMIT;
      t1 := (t1 + if t0 < n then 1 else 0) % WORD_LIMIT;
    }

    /** Count and compress block `k` of the message `all`, which goes on after it. */
    method AbsorbBlock(ghost all: Octets, ghost k: nat, block: Octets)
      requires Shape() && f0 == 0 && BLOCK_BYTES * (k + 1) <= |all| && block == FullBlock(all, k)
      requires h[..] == Absorbed(h0, all, k) && PairOf(t0, t1) == (BLOCK_BYTES * k) % COUNTER_LIMIT
      modifies this`t0, this`t1, h
      ensures Shape() && h[..] == Absorbed(h0, all, k + 1) && PairOf(t0, t1) == (BLOCK_BYTES * (k + 1)) % COUNTER_LIMIT
    {
      hide F, PairOf;
      Count(BLOCK_BYTES, BLOCK_BYTES * k);
      Compress(block);
    }

    /** `memcpy(buf + at, bytes, |bytes|)`. */
    method CopyIn(at: nat, bytes: Octets)
      requires at + |bytes| <= buf.Length
      modifies buf
      ensures buf[..at + |bytes|] == old(buf[..at]) + bytes
    {
      forall i | 0 <= i < |bytes| {
        buf[at + i] := bytes[i];
      }
    }

    /** The loop of `blake2s_update`: whole blocks straight from the input, as
        long as more than one is left. */
    method AbsorbBlocks(ghost all: Octets, ghost k0: nat, input: Octets, start: nat) returns (pos: nat, ghost k: nat)
      requires Shape() && f0 == 0 && start < |input|
      requires BLOCK_BYTES * k0 + |input| - start == |all| && all[BLOCK_BYTES * k0..] == input[start..]
      requires h[..] == Absorbed(h0, all, k0) && PairOf(t0, t1) == (BLOCK_BYTES * k0) % COUNTER_LIMIT
      modifies this`t0, this`t1, h
      ensures Shape() && start <= pos < |input| <= pos + BLOCK_BYTES
      ensures BLOCK_BYTES * k + |input| - pos == |all| && all[BLOCK_BYTES * k..] == input[pos..]
      ensures h[..] == Absorbed(h0, all, k) && PairOf(t0, t1) == (BLOCK_BYTES * k) % COUNTER_LIMIT
    {
      hide F, PairOf, Absorbed;
      pos, k := start, k0;
      while |input| - pos > BLOCK_BYTES
        invariant start <= pos < |input| && BLOCK_BYTES * k + |input| - pos == |all|
        invariant all[BLOCK_BYTES * k..] == input[pos..]
        invariant Shape() && h[..] == Absorbed(h0, all, k) && PairOf(t0, t1) == (BLOCK_BYTES * k) % COUNTER_LIMIT
        decreases |input| - pos
      {
        ghost var rest := all[BLOCK_BYTES * k..];
        assert rest[..BLOCK_BYTES] == FullBlock(all, k) && input[pos..][..BLOCK_BYTES] == input[pos..pos + BLOCK_BYTES];
        AbsorbBlock(all, k, input[pos..pos + BLOCK_BYTES]);
        assert rest[BLOCK_BYTES..] == all[BLOCK_BYTES * (k + 1)..]
               && input[pos..][BLOCK_BYTES..] == input[pos + BLOCK_BYTES..];
        k := k + 1;
        pos := pos + BLOCK_BYTES;
      }
    }

    /** `blake2s_update`. */
    method Update(input: Octets)
      requires Valid()
      modifies this`t0, this`t1, this`buflen, this`data, h, buf
      ensures Valid() && data == old(data) + input
    {
      hide F, PairOf, Absorbed;
      if |input| == 0 {
        assert data + input == data;
        return;
      }
      ghost var all := data + input;
      ghost var k := (|data| - buflen) / BLOCK_BYTES;
      AbsorbedPrefix(h0, data, input, k);
      assert all[BLOCK_BYTES * k..] == data[BLOCK_BYTES * k..] + input;
      var left, pos := buflen, 0;
      var fill := BLOCK_BYTES - left;
      if |input| > fill {
        buflen := 0;
        CopyIn(left, input[..fill]);
        assert buf[..] == buf[..BLOCK_BYTES];
        assert all[BLOCK_BYTES * k..][..BLOCK_BYTES] == FullBlock(all, k);
        AbsorbBlock(all, k, buf[..]);
        assert all[BLOCK_BYTES * (k + 1)..] == all[BLOCK_BYTES * k..][BLOCK_BYTES..] == input[fill..];
        pos, k := AbsorbBlocks(all, k + 1, input, fill);
      }
      Keep(all, k, input[pos..]);
    }

    /** The rest of the input is kept in the buffer. */
    method Keep(ghost all: Octets, ghost k: nat, rest: Octets)
      requires Shape() && f0 == 0 && rest != [] && buflen + |rest| <= BLOCK_BYTES
      requires |all| == BLOCK_BYTES * k + buflen + |rest| && all[BLOCK_BYTES * k..] == buf[..buflen] + rest
      requires h[..] == Absorbed(h0, all, k) && PairOf(t0, t1) == (BLOCK_BYTES * k) % COUNTER_LIMIT
      modifies this`buflen, this`data, buf
      ensures Valid() && data == all
    {
      hide F, PairOf, Absorbed;
      CopyIn(buflen, rest);
      buflen := buflen + |rest|;
      data := all;
      assert (|all| - buflen) / BLOCK_BYTES == k;
    }

    /** The last block is the kept-back bytes, zero-padded. */
    lemma LastBlock(k: nat)
      requires Valid() && |data| == BLOCK_BYTES * k + buflen
      ensures BlockCount(|data|) == k + 1
      ensures BlockAt(data, k) == buf[..buflen] + ZeroOctets(BLOCK_BYTES - buflen)
    {
      hide F, PairOf, Absorbed;
      var padded := data + ZeroOctets((k + 1) * BLOCK_BYTES - |data|);
      assert padded[BLOCK_BYTES * k..BLOCK_BYTES * (k + 1)]
             == data[BLOCK_BYTES * k..] + ZeroOctets(BLOCK_BYTES - buflen);
    }

    /** `blake2s_final`. */
    method Final() returns (out: Octets)
      requires Valid()
      modifies this`t0, this`t1, this`f0, this`f1, h, buf
      ensures out == Digest(h0, data, outlen)
    {
      hide F, PairOf, Absorbed, StoreAll, Chained;
      ghost var k := (|data| - buflen) / BLOCK_BYTES;
      LastBlock(k);
      AbsorbedIsChained(h0, data, k);
      CounterWraps(h[..], BlockAt(data, k), |data|, true);
      Count(buflen, BLOCK_BYTES * k);
      f0 := ALL_ONES;
      f1 := if lastNode then ALL_ONES else f1;
      ghost var kept := buf[..buflen];
      forall i | buflen <= i < BLOCK_BYTES {
        buf[i] := 0;
      }
      assert buf[..] == kept + ZeroOctets(BLOCK_BYTES - buflen);
      assert f0 == ALL_ONES && PairOf(t0, t1) == |data| % COUNTER_LIMIT && buf[..] == BlockAt(data, k);
      ghost var chained := h[..];
      assert chained == Chained(h0, data, k);
      Compress(buf[..]);
      assert h[..] == F(chained, BlockAt(data, k), |data| % COUNTER_LIMIT, true);
      assert h[..] == F(Chained(h0, data, k), BlockAt(data, k), |data| % COUNTER_LIMIT, true);
      var buffer := StoreWords();
      out := buffer[..outlen];
    }

    /** The chaining words as bytes. */
    method StoreWords() returns (buffer: Octets)
      requires h.Length == 8
      ensures buffer == StoreAll(h[..])
    {
      hide Store32;
      buffer := [];
      for i := 0 to 8
        invariant buffer == StoreAll(h[..i])
      {
        buffer := buffer + Store32(h[i]);
        assert h[..i + 1][..i] == h[..i];
      }
      assert h[..8] == h[..];
    }
  }

  /** `caml_blake2s_hash`. */
  method HashBytes(input: Octets, personal: Octets) returns (out: Octets)
    ensures out == Digest(InitialState(ParamBlock(32, personal)), input, OUT_BYTES)
  {
    hide Digest, InitialState, ParamBlock;
    var ctx := new Context(ParamBlock(32, personal), OUT_BYTES);
    ctx.Update(input);
    assert [] + input == input;
    out := ctx.Final();
  }

  function Flatten(parts: seq<Octets>): Octets
  {
    if parts == [] then [] else Flatten(parts[..|parts| - 1]) + parts[|parts| - 1]
  }

  /** However a message is split into updates, the digest is that of the whole. */
  method HashParts(parts: seq<Octets>, param: Octets, outlen: nat) returns (out: Octets)
    requires |param| == 32 && outlen <= OUT_BYTES
    ensures out == Digest(InitialState(param), Flatten(parts), outlen)
  {
    hide Digest, InitialState;
    var ctx := new Context(param, outlen);
    for i := 0 to |parts|
      invariant ctx.Valid() && ctx.data == Flatten(parts[..i]) && fresh(ctx.h) && fresh(ctx.buf)
    {
      ctx.Update(parts[i]);
      assert parts[..i + 1][..i] == parts[..i];
    }
    assert parts[..|parts|] == parts;
    out := ctx.Final();
  }
}
