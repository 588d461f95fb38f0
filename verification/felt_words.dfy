/** A field element split into 28 nine-bit words (`verifier/src/bundle.rs`). */
module FeltWords {
  import opened Bytes
  import opened Merkle

  const N_WORDS: nat := 28
  const BITS_PER_WORD: nat := 9

  // ----- 64-bit operations, as arithmetic

  /** `x >> n`; a shift of 64 or more would panic. */
  function Shr(x: u64, n: nat): (r: u64)
    requires n < 64
  {
    DivideShrinks(x, Pow2(n));
    x / Pow2(n)
  }

  /** `x << n`, keeping the low 64 bits. */
  function Shl(x: u64, n: nat): u64
    requires n < 64
  {
    x * Pow2(n) % U64_LIMIT
  }

  /** Bitwise or. */
  function Or(a: nat, b: nat): nat
  {
    if a == 0 && b == 0 then 0
    else (if a % 2 == 1 || b % 2 == 1 then 1 else 0) + 2 * Or(a / 2, b / 2)
  }

  /** `x & ((1 << 9) - 1)`. */
  function Masked(x: nat): nat
  {
    x % 512
  }

  lemma DivideShrinks(x: nat, p: nat)
    requires p > 0
    ensures 0 <= x / p <= x
  {
    Grows(p, x / p);
    assert x == p * (x / p) + x % p;
  }

  /** A product with a positive factor is at least the other factor, or at most its negation. */
  lemma Grows(m: nat, d: int)
    requires m > 0
    ensures d >= 0 ==> m * d >= d
    ensures d >= 1 ==> m * d >= m
    ensures d <= -1 ==> m * d <= 0 - m
  {
    Distribute(m - 1, 1, d);
    Distribute(d - 1, 1, m);
    Distribute(d + 1, -1, m);
    if d >= 0 {
      Product(m - 1, d);
    }
    if d >= 1 {
      Product(d - 1, m);
    }
    if d <= -1 {
      Product(-1 - d, m);
      Distribute(-1 - d, d + 1, m);
    }
  }

  lemma Product(a: int, b: int)
    requires a >= 0 && b >= 0
    ensures a * b >= 0
  {
  }

  lemma Distribute(a: int, b: int, c: int)
    ensures (a + b) * c == a * c + b * c
    ensures c * (a + b) == c * a + c * b
    ensures a * c == c * a && b * c == c * b
  {
  }

  lemma Associate(a: int, b: int, c: int)
    ensures (a * b) * c == a * (b * c) && a * (b * c) == b * (a * c)
  {
  }

  lemma Halves(c: nat, k: nat)
    requires k > 0
    ensures c * Pow2(k) % 2 == 0 && c * Pow2(k) / 2 == c * Pow2(k - 1)
  {
    assert c * Pow2(k) == 2 * (c * Pow2(k - 1));
  }

  /** Numbers without common bits: `or` adds them. */
  lemma {:induction false} OrAddsDisjoint(a: nat, c: nat, k: nat)
    requires a < Pow2(k)
    ensures Or(a, c * Pow2(k)) == a + c * Pow2(k)
    decreases k
  {
    if k == 0 {
      OrWithZero(c);
    } else {
      Halves(c, k);
      OrAddsDisjoint(a / 2, c, k - 1);
    }
  }

  lemma {:induction false} OrWithZero(c: nat)
    ensures Or(0, c) == c
  {
    if c == 0 {
    } else {
      OrWithZero(c / 2);
    }
  }

  // ----- The split

  /** The four little-endian 64-bit digits of an element. */
  type Limbs = s: seq<u64> | |s| == 4 witness [0, 0, 0, 0]

  /** One entry of `felt252_to_m31_words`. */
  function Word(limbs: Limbs, index: nat): nat
    requires index < N_WORDS
  {
    var shift := BITS_PER_WORD * index;
    var lowLimb := shift / 64;
    var shiftLow := shift % 64;
    var highLimb := (shift + BITS_PER_WORD - 1) / 64;
    if lowLimb == highLimb then Masked(Shr(limbs[lowLimb], shiftLow))
    else Masked(Or(Shr(limbs[lowLimb], shiftLow), Shl(limbs[highLimb], 64 - shiftLow)))
  }

  /** `felt252_to_m31_words`. */
  function Words(limbs: Limbs): (words: seq<nat>)
    ensures |words| == N_WORDS
  {
    seq(N_WORDS, i requires 0 <= i < N_WORDS => Word(limbs, i))
  }

  /** The number whose digits from limb `from` on are the limbs. */
  function ValueFrom(limbs: Limbs, from: nat): nat
    requires from <= 4
    decreases 4 - from
  {
    if from == 4 then 0 else limbs[from] + U64_LIMIT * ValueFrom(limbs, from + 1)
  }

  function Value(limbs: Limbs): nat
  {
    ValueFrom(limbs, 0)
  }

  // ----- Division by powers of two

  /** Division is unique. */
  lemma QuotientIs(n: nat, m: nat, q: nat, r: nat)
    requires m > 0 && n == m * q + r && r < m
    ensures n / m == q && n % m == r
  {
    Distribute(n / m - q, q, m);
    Grows(m, n / m - q);
    assert n == m * (n / m) + n % m;
  }

  lemma DivideSum(a: nat, m: nat, c: nat)
    requires m > 0
    ensures m * c >= 0 && (a + m * c) / m == a / m + c && (a + m * c) % m == a % m
  {
    Product(m, c);
    Distribute(a / m, c, m);
    assert a == m * (a / m) + a % m;
    QuotientIs(a + m * c, m, a / m + c, a % m);
  }

  /** A digit and a remainder below it stay below the product of the bases. */
  lemma DigitBelow(t: nat, b: nat, r: nat, a: nat)
    requires t < b && r < a
    ensures 0 <= a * t + r < a * b
  {
    Distribute(t, b - t, a);
    Grows(a, b - t);
    Product(a, t);
  }

  lemma ExpandDigits(a: nat, b: nat, s: nat, t: nat, q: nat)
    requires q == b * s + t
    ensures a * q == (a * b) * s + a * t && a * t == t * a
  {
    Distribute(b * s, t, a);
    Associate(a, b, s);
    Distribute(t, 0, a);
  }

  lemma DivideTwice(n: nat, a: nat, b: nat)
    requires a > 0 && b > 0
    ensures a * b > 0 && n / a / b == n / (a * b)
    ensures n % (a * b) == n % a + (n / a % b) * a
  {
    var q, r := n / a, n % a;
    var s, t := q / b, q % b;
    Division(n, a);
    Division(q, b);
    TwoDigits(n, a, b, q, r, s, t);
    QuotientIs(n, a * b, s, a * t + r);
  }

  lemma Division(n: nat, m: nat)
    requires m > 0
    ensures n == m * (n / m) + n % m && 0 <= n % m < m && n / m >= 0
  {
  }

  /** A number by its quotient's digits. */
  lemma TwoDigits(n: nat, a: nat, b: nat, q: nat, r: nat, s: nat, t: nat)
    requires n == a * q + r && r < a && q == b * s + t && t < b
    ensures a * b > 0 && 0 <= a * t + r < a * b
    ensures n == (a * b) * s + (a * t + r) && a * t == t * a
  {
    DigitBelow(t, b, r, a);
    ExpandDigits(a, b, s, t, q);
  }

  /** Whole limbs come off by dividing by 2^64 each. */
  lemma {:induction false} DropLimbs(limbs: Limbs, k: nat)
    requires k <= 4
    ensures Value(limbs) / Pow2(64 * k) == ValueFrom(limbs, k)
  {
    if k == 0 {
    } else {
      DropLimbs(limbs, k - 1);
      Pow2Sum(64 * (k - 1), 64);
      Pow2Of64(64);
      DivideTwice(Value(limbs), Pow2(64 * (k - 1)), U64_LIMIT);
      assert 64 * (k - 1) + 64 == 64 * k;
      DivideSum(limbs[k - 1], U64_LIMIT, ValueFrom(limbs, k));
    }
  }

  lemma Pow2Of64(n: nat)
    requires n == 64
    ensures Pow2(n) == U64_LIMIT && Pow2(9) == 512
  {
    hide Pow2;
    Pow2Small();
    Pow2Sum(8, 8);
    Pow2Sum(16, 16);
    Pow2Sum(32, 32);
  }

  /** 2^64 as a product of two powers. */
  lemma SplitLimit(n: nat)
    requires n <= 64
    ensures Pow2(n) * Pow2(64 - n) == U64_LIMIT
  {
    Pow2Of64(64);
    Pow2Sum(n, 64 - n);
    assert n + (64 - n) == 64;
  }

  /** A quotient of a limb with everything above it. */
  lemma DivideLimb(x: u64, above: nat, s: nat)
    requires s < 64
    ensures (x + U64_LIMIT * above) / Pow2(s) == x / Pow2(s) + Pow2(64 - s) * above
  {
    SplitLimit(s);
    hide Pow2;
    Product(Pow2(64 - s), above);
    Associate(Pow2(s), Pow2(64 - s), above);
    DivideSum(x, Pow2(s), Pow2(64 - s) * above);
  }

  /** Multiples of 512 do not show in a word. */
  lemma MaskDrops(a: nat, k: nat, c: nat)
    requires k >= 9
    ensures Pow2(k) * c >= 0 && Masked(a + Pow2(k) * c) == Masked(a)
  {
    Pow2Of64(64);
    Pow2Sum(9, k - 9);
    assert 9 + (k - 9) == k;
    hide Pow2;
    Product(Pow2(k - 9), c);
    Product(Pow2(k), c);
    Associate(Pow2(9), Pow2(k - 9), c);
    DivideSum(a, Pow2(9), Pow2(k - 9) * c);
  }

  lemma ShrIsSmall(x: u64, s: nat)
    requires s < 64
    ensures Shr(x, s) < Pow2(64 - s)
  {
    SplitLimit(s);
    hide Pow2;
    var p, q := Pow2(s), Pow2(64 - s);
    assert x == p * (x / p) + x % p;
    Distribute(q, x / p - q, p);
    Grows(p, x / p - q + 1);
    Distribute(x / p - q, 1, p);
  }

  /** The low 64 bits of a shifted limb are still a multiple of the shift. */
  lemma ShlIsMultiple(x: u64, n: nat) returns (c: nat)
    requires 0 < n < 64
    ensures Shl(x, n) == c * Pow2(n)
  {
    SplitLimit(n);
    hide Pow2;
    var p, q := Pow2(n), Pow2(64 - n);
    c := x % q;
    assert x == q * (x / q) + c;
    Distribute(q * (x / q), c, p);
    Associate(p, q, x / q);
    DigitBelow(c, q, 0, p);
    Distribute(c, 0, p);
    QuotientIs(x * p, U64_LIMIT, x / q, c * p);
  }

  /** A word inside one limb. */
  lemma InnerWord(x: u64, above: nat, s: nat)
    requires s + 9 <= 64
    ensures U64_LIMIT * above >= 0 && Masked(ShiftRight(x + U64_LIMIT * above, s)) == Masked(Shr(x, s))
  {
    DivideLimb(x, above, s);
    MaskDrops(Shr(x, s), 64 - s, above);
    hide Pow2, Masked;
  }

  /** The bits of a product that overflow 64 bits, set apart. */
  lemma SplitOverflow(y: nat, p: nat, above: nat, low: nat, shl: nat, carry: nat)
    requires y * p == U64_LIMIT * carry + shl
    ensures low + p * (y + U64_LIMIT * above) == low + shl + U64_LIMIT * (carry + p * above)
  {
    Distribute(y, U64_LIMIT * above, p);
    Associate(p, U64_LIMIT, above);
    Distribute(carry, p * above, U64_LIMIT);
  }

  /** `v >> n` for a number of any size. */
  function ShiftRight(v: nat, n: nat): nat
  {
    DivideShrinks(v, Pow2(n));
    v / Pow2(n)
  }

  /** A word that straddles two limbs. */
  lemma StraddlingWord(x: u64, y: u64, above: nat, s: nat, v: nat)
    requires 55 < s < 64 && v == x + U64_LIMIT * (y + U64_LIMIT * above)
    ensures Masked(ShiftRight(v, s)) == Masked(Or(Shr(x, s), Shl(y, 64 - s)))
  {
    var n := 64 - s;
    var low, p := Shr(x, s), Pow2(n);
    DivideLimb(x, y + U64_LIMIT * above, s);
    assert ShiftRight(v, s) == low + p * (y + U64_LIMIT * above);
    hide ShiftRight, Masked;
    var c := ShlIsMultiple(y, n);
    ShrIsSmall(x, s);
    OrAddsDisjoint(low, c, n);
    assert Or(low, Shl(y, n)) == low + Shl(y, n);
    hide Or;
    DropOverflow(y, n, above, low, ShiftRight(v, s));
  }

  /** Masking a number forgets what overflowed. */
  lemma DropOverflow(y: nat, n: nat, above: nat, low: nat, v: nat)
    requires n < 64 && y < U64_LIMIT && v == low + Pow2(n) * (y + U64_LIMIT * above)
    ensures Masked(v) == Masked(low + Shl(y, n))
  {
    var p, shl := Pow2(n), Shl(y, n);
    Product(y, p);
    var carry := y * p / U64_LIMIT;
    assert y * p == U64_LIMIT * carry + shl;
    Product(p, above);
    var over := carry + p * above;
    SplitOverflow(y, p, above, low, shl, carry);
    assert v == low + shl + U64_LIMIT * over;
    hide Shl;
    DropLimit(low + shl, over);
  }

  lemma DropLimit(a: nat, c: nat)
    ensures U64_LIMIT * c >= 0 && Masked(a + U64_LIMIT * c) == Masked(a)
  {
    Pow2Of64(64);
    Product(U64_LIMIT, c);
    MaskDrops(a, 64, c);
  }

  /** A slice of the value starts in limb `k`, at bit `s` of it. */
  lemma SliceAt(limbs: Limbs, k: nat, s: nat)
    requires k < 4 && s < 64
    ensures ShiftRight(Value(limbs), 64 * k + s) == ShiftRight(ValueFrom(limbs, k), s)
  {
    DropLimbs(limbs, k);
    Pow2Sum(64 * k, s);
    hide Pow2, Value, ValueFrom;
    DivideTwice(Value(limbs), Pow2(64 * k), Pow2(s));
  }

  lemma WordAt(limbs: Limbs, index: nat, k: nat, s: nat)
    requires index < N_WORDS && k == BITS_PER_WORD * index / 64 && s == BITS_PER_WORD * index % 64
    ensures k < 4 && 64 * k + s == BITS_PER_WORD * index && (s + 9 > 64 ==> k + 1 < 4)
    ensures Word(limbs, index) == if s + 9 <= 64 then Masked(Shr(limbs[k], s))
                                  else Masked(Or(Shr(limbs[k], s), Shl(limbs[k + 1], 64 - s)))
    ensures Word(limbs, index) < 512
  {
    hide Or, Shr, Shl;
  }

  /** Every word is its nine bits of the value, also where it straddles two limbs. */
  lemma WordIsSlice(limbs: Limbs, index: nat)
    requires index < N_WORDS
    ensures Word(limbs, index) == Masked(ShiftRight(Value(limbs), BITS_PER_WORD * index))
    ensures Word(limbs, index) < 512
  {
    var k, s := BITS_PER_WORD * index / 64, BITS_PER_WORD * index % 64;
    WordAt(limbs, index, k, s);
    hide Word, Masked, ShiftRight, Shr, Shl, Or, Value;
    SliceAt(limbs, k, s);
    if s + 9 <= 64 {
      InnerWord(limbs[k], ValueFrom(limbs, k + 1), s);
    } else {
      StraddlingWord(limbs[k], limbs[k + 1], ValueFrom(limbs, k + 2), s, ValueFrom(limbs, k));
    }
  }

  // ----- Recomposition

  /** The words as digits of base 512. */
  function Recomposed(words: seq<nat>): nat
  {
    if words == [] then 0
    else Recomposed(words[..|words| - 1]) + words[|words| - 1] * Pow2(BITS_PER_WORD * (|words| - 1))
  }

  /** A remainder nine bits longer has one word more. */
  lemma NineMoreBits(v: nat, k: nat)
    ensures v % Pow2(k + 9) == v % Pow2(k) + Masked(ShiftRight(v, k)) * Pow2(k)
  {
    Pow2Sum(k, 9);
    Pow2Small();
    hide Pow2;
    DivideTwice(v, Pow2(k), 512);
  }

  lemma OneMoreWord(limbs: Limbs, n: nat)
    requires 0 < n <= N_WORDS
    ensures Recomposed(Words(limbs)[..n])
            == Recomposed(Words(limbs)[..n - 1]) + Word(limbs, n - 1) * Pow2(BITS_PER_WORD * (n - 1))
  {
    hide Word, Pow2;
    var words := Words(limbs)[..n];
    assert words[..n - 1] == Words(limbs)[..n - 1] && words[n - 1] == Word(limbs, n - 1);
  }

  lemma {:induction false} PrefixRecomposes(limbs: Limbs, n: nat)
    requires n <= N_WORDS
    ensures Recomposed(Words(limbs)[..n]) == Value(limbs) % Pow2(BITS_PER_WORD * n)
  {
    if n == 0 {
    } else {
      PrefixRecomposes(limbs, n - 1);
      OneMoreWord(limbs, n);
      hide Words, Pow2, Word, Value, Recomposed;
      WordIsSlice(limbs, n - 1);
      assert BITS_PER_WORD * (n - 1) + 9 == BITS_PER_WORD * n;
      hide Masked, ShiftRight;
      NineMoreBits(Value(limbs), BITS_PER_WORD * (n - 1));
    }
  }

  /** The 28 words are below 512 and recompose to the value modulo 2^252. */
  lemma WordsRecompose(limbs: Limbs)
    ensures Recomposed(Words(limbs)) == Value(limbs) % Pow2(BITS_PER_WORD * N_WORDS)
    ensures forall i :: 0 <= i < N_WORDS ==> Words(limbs)[i] < 512
  {
    PrefixRecomposes(limbs, N_WORDS);
    assert Words(limbs)[..N_WORDS] == Words(limbs);
    forall i | 0 <= i < N_WORDS
      ensures Words(limbs)[i] < 512
    {
      WordIsSlice(limbs, i);
    }
  }

  /** So the words of field elements, which are below 2^252, determine them. */
  lemma WordsDetermineElement(a: Limbs, b: Limbs, bound: nat)
    requires bound == Pow2(BITS_PER_WORD * N_WORDS) && Value(a) < bound && Value(b) < bound
    ensures Words(a) == Words(b) <==> a == b
  {
    WordsRecompose(a);
    WordsRecompose(b);
    if Words(a) == Words(b) {
      QuotientIs(Value(a), bound, 0, Value(a));
      QuotientIs(Value(b), bound, 0, Value(b));
      LimbsOf(a, b, 0);
    }
  }

  lemma {:induction false} LimbsOf(a: Limbs, b: Limbs, from: nat)
    requires from <= 4 && ValueFrom(a, from) == ValueFrom(b, from)
    ensures forall i :: from <= i < 4 ==> a[i] == b[i]
    ensures from == 0 ==> a == b
    decreases 4 - from
  {
    if from >= 4 {
    } else {
      DivideSum(a[from], U64_LIMIT, ValueFrom(a, from + 1));
      DivideSum(b[from], U64_LIMIT, ValueFrom(b, from + 1));
      LimbsOf(a, b, from + 1);
    }
  }
}
