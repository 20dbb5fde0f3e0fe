/** The two string hashes of the analysis programs (`myhash`, `djb2`), the
    64-bit `size_t` arithmetic they run in, and the two ways the programs
    turn a hash into a table index (`% capacity` and `& (capacity - 1)`). */
module Hashing {
  import opened Bytes

  /** 2^64: `size_t` arithmetic wraps around modulo this. */
  const WORD: nat := 0x1_0000_0000_0000_0000

  /** A `size_t` value. */
  type Word = x: int | 0 <= x < WORD

  /** `(size_t)row[i]`: `char` is signed on the target, so a byte of 128 or
      more is sign-extended to a 64-bit value whose low byte is that byte. */
  function Widen(c: byte): (w: Word)
    ensures w % 256 == c
    ensures c < 128 <==> w < 128
  {
    if c < 128 then c else WORD - 256 + c
  }

  /** One iteration of `myhash`: `hash += hash * 97 + (size_t)row[i]`,
      every operation wrapping modulo 2^64. */
  function MyHashStep(h: Word, c: byte): Word {
    (h + ((h * 97) % WORD + Widen(c)) % WORD) % WORD
  }

  /** One iteration of `djb2`: `hash = ((hash << 5) + hash) + (size_t)row[i]`,
      every operation wrapping modulo 2^64. */
  function Djb2Step(h: Word, c: byte): Word {
    (((h * 32) % WORD + h) % WORD + Widen(c)) % WORD
  }

  /** The seed `djb2` starts from. */
  const DJB2_SEED: Word := 5381

  /** The value `myhash`'s loop holds after running over the bytes `s`. */
  function MyHashOf(s: seq<byte>): Word {
    if s == [] then 0 else MyHashStep(MyHashOf(s[..|s| - 1]), s[|s| - 1])
  }

  /** The value `djb2`'s loop holds after running over the bytes `s`. */
  function Djb2Of(s: seq<byte>): Word {
    if s == [] then DJB2_SEED else Djb2Step(Djb2Of(s[..|s| - 1]), s[|s| - 1])
  }

  /** Reference definition: the polynomial `seed * base^n + sum of c_i * base^(n-1-i)`
      over the widened bytes, in unbounded integers. */
  function Poly(base: int, seed: int, s: seq<byte>): int {
    if s == [] then seed else base * Poly(base, seed, s[..|s| - 1]) + Widen(s[|s| - 1])
  }

  lemma ModOfSum(a: int, b: int, m: int)
    requires m > 0
    ensures (a % m + b) % m == (a + b) % m
  {
    var q := a / m;
    assert a == m * q + a % m;
    ModOfMultiplePlus(q, a % m + b, m);
  }

  lemma ModOfMultiplePlus(q: int, x: int, m: int)
    requires m > 0
    ensures (m * q + x) % m == x % m
  {
    var y := m * q + x;
    var d := y / m - q - x / m;
    assert y == m * (y / m) + y % m;
    assert x == m * (x / m) + x % m;
    assert m * d == x % m - y % m;
  }

  /** `myhash`'s update is `98 * hash + c` modulo 2^64. */
  lemma MyHashStepIsAffine(h: Word, c: byte)
    ensures MyHashStep(h, c) == (98 * h + Widen(c)) % WORD
  {
    ModOfSum(h * 97, Widen(c), WORD);
    ModOfSum(h * 97 + Widen(c), h, WORD);
    assert ((h * 97 + Widen(c)) % WORD + h) % WORD == (h + ((h * 97) % WORD + Widen(c)) % WORD) % WORD;
  }

  /** `djb2`'s update is `33 * hash + c` modulo 2^64. */
  lemma Djb2StepIsAffine(h: Word, c: byte)
    ensures Djb2Step(h, c) == (33 * h + Widen(c)) % WORD
  {
    ModOfSum(h * 32, h, WORD);
    ModOfSum(h * 32 + h, Widen(c), WORD);
  }

  /** `myhash` computes the base-98 polynomial of the key from 0, modulo 2^64. */
  lemma {:induction false} MyHashIsPolynomial(s: seq<byte>)
    ensures MyHashOf(s) == Poly(98, 0, s) % WORD
  {
    if s != [] {
      var p := s[..|s| - 1];
      var c := s[|s| - 1];
      MyHashIsPolynomial(p);
      MyHashStepIsAffine(MyHashOf(p), c);
      var P := Poly(98, 0, p);
      ModOfSum(P, 0, WORD);
      ScaledModOfSum(98, P, Widen(c));
    }
  }

  /** `djb2` computes the base-33 polynomial of the key from 5381, modulo 2^64. */
  lemma {:induction false} Djb2IsPolynomial(s: seq<byte>)
    ensures Djb2Of(s) == Poly(33, DJB2_SEED, s) % WORD
  {
    if s != [] {
      var p := s[..|s| - 1];
      var c := s[|s| - 1];
      Djb2IsPolynomial(p);
      Djb2StepIsAffine(Djb2Of(p), c);
      ScaledModOfSum(33, Poly(33, DJB2_SEED, p), Widen(c));
    }
  }

  lemma ScaledModOfSum(k: int, P: int, c: int)
    ensures (k * (P % WORD) + c) % WORD == (k * P + c) % WORD
  {
    var q := P / WORD;
    assert P == WORD * q + P % WORD;
    assert k * P + c == WORD * (k * q) + (k * (P % WORD) + c);
    ModOfMultiplePlus(k * q, k * (P % WORD) + c, WORD);
  }

  /** The `for` loop of `myhash` over the bytes of a key. */
  method MyHashLoop(s: seq<byte>) returns (hash: Word)
    ensures hash == MyHashOf(s)
  {
    hash := 0;
    for i := 0 to |s|
      invariant hash == MyHashOf(s[..i])
    {
      assert s[..i + 1][..i] == s[..i];
      hash := (hash + ((hash * 97) % WORD + Widen(s[i])) % WORD) % WORD;
    }
    assert s[..|s|] == s;
  }

  /** The `for` loop of `djb2` over the bytes of a key. */
  method Djb2Loop(s: seq<byte>) returns (hash: Word)
    ensures hash == Djb2Of(s)
  {
    hash := DJB2_SEED;
    for i := 0 to |s|
      invariant hash == Djb2Of(s[..i])
    {
      assert s[..i + 1][..i] == s[..i];
      hash := (((hash * 32) % WORD + hash) % WORD + Widen(s[i])) % WORD;
    }
    assert s[..|s|] == s;
  }

  function Pow2(k: nat): (p: nat)
    ensures p >= 1
  {
    if k == 0 then 1 else 2 * Pow2(k - 1)
  }

  lemma {:induction false} Pow2Add(a: nat, b: nat)
    ensures Pow2(a + b) == Pow2(a) * Pow2(b)
  {
    if a > 0 {
      Pow2Add(a - 1, b);
    }
  }

  /** Bitwise AND of two non-negative integers, bit by bit from the lowest. */
  function BitAnd(a: nat, b: nat): (r: nat)
    ensures r <= a && r <= b
    decreases a
  {
    if a == 0 || b == 0 then 0
    else 2 * BitAnd(a / 2, b / 2) + (if a % 2 == 1 && b % 2 == 1 then 1 else 0)
  }

  /** Index by modulo, as `hash % ht_capacity(table)`. */
  function ModuloIndex(hash: Word, capacity: nat): (index: nat)
    requires capacity > 0
    ensures index < capacity
  {
    hash % capacity
  }

  /** Index by mask, as `hash & (ht_capacity(table) - 1)`; the subtraction is
      on `size_t`, so a capacity of 0 gives the all-ones mask. */
  function MaskIndex(hash: Word, capacity: Word): (index: nat)
    ensures capacity > 0 ==> index < capacity
    ensures index <= hash
  {
    BitAnd(hash, (capacity + WORD - 1) % WORD)
  }

  lemma ModUnique(a: int, m: int, t: int, x: int)
    requires m > 0 && 0 <= x < m && a == m * t + x
    ensures a % m == x
  {
    ModOfMultiplePlus(t, x, m);
    assert x % m == x;
  }

  /** The low bit of an odd mask passes the low bit of `a` through. */
  lemma BitAndOdd(a: nat, b: nat)
    requires b % 2 == 1
    ensures BitAnd(a, b) == 2 * BitAnd(a / 2, b / 2) + a % 2
  {
  }

  /** `a >> k`. */
  function Shift(a: nat, k: nat): nat {
    if k == 0 then a else Shift(a / 2, k - 1)
  }

  /** `h << k`, by doubling. */
  function Unshift(h: nat, k: nat): nat {
    if k == 0 then h else 2 * Unshift(h, k - 1)
  }

  /** The mask of the `k` low bits. */
  function Ones(k: nat): nat {
    if k == 0 then 0 else 2 * Ones(k - 1) + 1
  }

  lemma {:induction false} OnesBelowPow2(k: nat)
    ensures Ones(k) == Pow2(k) - 1
  {
    if k > 0 {
      OnesBelowPow2(k - 1);
    }
  }

  lemma {:induction false} UnshiftIsScaling(h: nat, k: nat)
    ensures Unshift(h, k) == Pow2(k) * h
  {
    if k > 0 {
      UnshiftIsScaling(h, k - 1);
      Doubled(Pow2(k - 1), Pow2(k), h);
    }
  }

  lemma Doubled(m: int, p: int, h: int)
    requires p == 2 * m
    ensures p * h == 2 * (m * h)
  {
  }

  /** Masking with the `k` low bits keeps them: what it keeps and the
      shifted-out high part make up `a` again. */
  lemma {:induction false} LowBits(a: nat, k: nat)
    ensures BitAnd(a, Ones(k)) + Unshift(Shift(a, k), k) == a
  {
    if k > 0 {
      UnshiftShift(a, k);
      BitAndOdd(a, Ones(k));
      LowBits(a / 2, k - 1);
      Halves(a);
    }
  }

  /** Shifting out `k` bits is shifting out the low bit and then `k - 1`. */
  lemma UnshiftShift(a: nat, k: nat)
    requires k > 0
    ensures Ones(k) / 2 == Ones(k - 1) && Ones(k) % 2 == 1
    ensures Unshift(Shift(a, k), k) == 2 * Unshift(Shift(a / 2, k - 1), k - 1)
  {
  }

  lemma Halves(a: nat)
    ensures a == 2 * (a / 2) + a % 2 && a % 2 < 2
  {
  }

  /** Masking with `2^k - 1` is `% 2^k`. */
  lemma BitAndLowMask(a: nat, k: nat)
    ensures BitAnd(a, Pow2(k) - 1) == a % Pow2(k)
  {
    OnesBelowPow2(k);
    LowBits(a, k);
    UnshiftIsScaling(Shift(a, k), k);
    ModUnique(a, Pow2(k), Shift(a, k), BitAnd(a, Pow2(k) - 1));
  }

  /** With a power-of-two capacity (as `ht_twos_pow_*` requires), the mask
      index and the modulo index coincide. */
  lemma MaskIsModulo(hash: Word, k: nat)
    requires Pow2(k) < WORD
    ensures MaskIndex(hash, Pow2(k)) == ModuloIndex(hash, Pow2(k))
  {
    assert (Pow2(k) + WORD - 1) % WORD == Pow2(k) - 1;
    BitAndLowMask(hash, k);
  }
}
