/** 32-bit machine words (`L4_Word_t` on ia32) and alignment to powers of two.

    A mask such as `x & ~(size - 1)`, where `size` is a power of two, is written `AlignDown(x, size)`;
    a shift `1UL << n` with `n < 32` is written `Pow2(n)`. */
module Words {

  const WORD: int := 0x1_0000_0000
  const MAX: Word := 0xFFFF_FFFF

  type Word = w: int | 0 <= w < 0x1_0000_0000

  type Byte = b: int | 0 <= b < 256

  /** The null pointer, where a pointer is the number of a record. */
  const NIL := -1

  /** The nil thread id, and the one that stands for any thread. */
  const NILTHREAD: Word := 0
  const ANYTHREAD: Word := 0xFFFF_FFFF

  /** Wrapping addition. */
  function Add(a: Word, b: Word): Word {
    if a + b < WORD then a + b else a + b - WORD
  }

  /** Wrapping subtraction. */
  function Sub(a: Word, b: Word): Word {
    if b <= a then a - b else a - b + WORD
  }

  function Pow2(n: nat): (p: nat)
    ensures p > 0
  {
    if n == 0 then 1 else 2 * Pow2(n - 1)
  }

  /** A power of two that fits in a word: the address space divides evenly into blocks of that size. */
  predicate IsBlock(size: int) {
    0 < size < WORD && WORD % size == 0
  }

  function AlignDown(x: Word, size: Word): (r: Word)
    requires size > 0
  {
    ModBounds(x, size);
    x - x % size
  }

  // ----- division facts -----

  lemma ModBounds(x: nat, s: int)
    requires s > 0
    ensures 0 <= x % s < s && x % s <= x
  {
  }

  lemma ModUnique(x: int, q: int, r: int, s: int)
    requires s > 0 && 0 <= r < s && x == q * s + r
    ensures x % s == r && x / s == q
  {
    var d := q - x / s;
    assert d * s == q * s - (x / s) * s;
    assert x == (x / s) * s + x % s;
    assert d >= 1 ==> d * s >= s;
    assert d <= -1 ==> d * s <= -s;
  }

  /** Multiples of `s` are closed under addition and subtraction, and differ by at least `s`. */
  lemma Multiples(a: int, b: int, s: int)
    requires s > 0 && a % s == 0 && b % s == 0
    ensures (a + b) % s == 0 && (a - b) % s == 0
    ensures a < b ==> a + s <= b
  {
    var i, j := a / s, b / s;
    assert a == i * s && b == j * s;
    assert a + b == (i + j) * s && a - b == (i - j) * s;
    ModUnique(a + b, i + j, 0, s);
    ModUnique(a - b, i - j, 0, s);
    if a < b {
      assert (j - i) * s == j * s - i * s;
      assert j - i >= 1;
      assert (j - i) * s >= s;
    }
  }

  /** An offset from a multiple is the remainder. */
  lemma ModOfOffset(t: int, r: int, s: int)
    requires s > 0 && t % s == 0 && 0 <= r < s
    ensures (t + r) % s == r
  {
    ModUnique(t + r, t / s, r, s);
  }

  lemma MultipleOfMultiple(a: int, big: int, small: int)
    requires small > 0 && big > 0 && a % big == 0 && big % small == 0
    ensures a % small == 0
  {
    var i, j := a / big, big / small;
    assert a == i * big && big == j * small;
    assert a == (i * j) * small;
    ModUnique(a, i * j, 0, small);
  }

  /** `AlignDown(x, s)` is the largest multiple of `s` that is at most `x`. */
  lemma AlignDownIsFloor(x: Word, s: Word)
    requires s > 0
    ensures AlignDown(x, s) % s == 0 && AlignDown(x, s) <= x < AlignDown(x, s) + s
    ensures forall a: int {:trigger a % s} :: a % s == 0 && a <= x ==> a <= AlignDown(x, s)
  {
    ModBounds(x, s);
    var f := AlignDown(x, s);
    assert x == (x / s) * s + x % s;
    ModUnique(f, x / s, 0, s);
    forall a: int | a % s == 0 && a <= x
      ensures a <= f
    {
      if f < a {
        Multiples(f, a, s);
      }
    }
  }

  lemma AlignDownOf(t: Word, r: nat, s: Word)
    requires s > 0 && t % s == 0 && r < s && t + r < WORD
    ensures AlignDown(t + r, s) == t
  {
    ModOfOffset(t, r, s);
  }

  /** An aligned block never wraps around the top of the address space. */
  lemma AlignedFits(a: Word, s: int)
    requires IsBlock(s) && a % s == 0
    ensures a + s <= WORD
  {
    Multiples(a, WORD, s);
  }

  // ----- powers of two -----

  lemma {:induction false} Pow2Add(a: nat, b: nat)
    ensures Pow2(a + b) == Pow2(a) * Pow2(b)
  {
    if a > 0 {
      Pow2Add(a - 1, b);
      assert Pow2(a) * Pow2(b) == 2 * (Pow2(a - 1) * Pow2(b));
    }
  }

  /** A smaller power of two divides a larger one. */
  lemma Pow2Divides(a: nat, b: nat)
    requires a <= b
    ensures Pow2(b) % Pow2(a) == 0 && Pow2(a) <= Pow2(b)
  {
    Pow2Add(b - a, a);
    ModUnique(Pow2(b), Pow2(b - a), 0, Pow2(a));
    assert Pow2(b - a) * Pow2(a) >= Pow2(a);
  }

  lemma Pow2IsBlock(n: nat)
    requires n < 32
    ensures IsBlock(Pow2(n))
    ensures n >= 1 ==> Pow2(n) >= 2 && Pow2(n) % 2 == 0
  {
    Pow2Of32();
    Pow2Divides(n, 32);
    Pow2Divides(n, 31);
    if n >= 1 {
      Pow2Divides(1, n);
      assert Pow2(1) == 2;
    }
  }

  lemma Pow2Of32()
    ensures Pow2(32) == WORD && Pow2(31) == 0x8000_0000
  {
    assert Pow2(8) == 256;
    Pow2Add(8, 8);
    Pow2Add(16, 16);
  }

  // ----- page sizes -----

  /** Bit `k` of a mask. */
  predicate Bit(mask: Word, k: nat) {
    mask / Pow2(k) % 2 == 1
  }

  /** The least page size in a page-size mask as its log2, or 0 for an empty mask. The first bit looked at is bit 10. */
  method MinPageSize(mask: Word) returns (n: nat)
    requires mask == 0 || mask >= 1024
    ensures n == 0 <==> mask == 0
    ensures n != 0 ==> 10 <= n < 32 && Bit(mask, n) && forall k :: 10 <= k < n ==> !Bit(mask, k)
  {
    if mask == 0 {
      return 0;
    }
    n := 10;
    var m := 1024;
    assert Pow2(10) == 1024 by {
      assert Pow2(5) == 32;
      Pow2Add(5, 5);
    }
    while mask / m % 2 == 0
      invariant 10 <= n < 32 && m == Pow2(n) && mask / m > 0
      invariant forall k :: 10 <= k < n ==> !Bit(mask, k)
      decreases 32 - n
    {
      ClearBit(mask, n);
      m := 2 * m;
      n := n + 1;
    }
  }

  /** When bit `n` is clear, what is left of the mask has higher bits. */
  lemma ClearBit(mask: Word, n: nat)
    requires n < 32 && mask / Pow2(n) > 0 && mask / Pow2(n) % 2 == 0
    ensures mask / Pow2(n + 1) > 0 && n < 31
  {
    TwiceInside(mask, Pow2(n));
    if n == 31 {
      Pow2Of32();
    }
  }

  lemma TwiceInside(x: nat, m: int)
    requires m > 0 && x / m >= 2
    ensures x >= 2 * m && x / (2 * m) > 0
  {
    var q := x / m;
    assert x == q * m + x % m;
    assert q * m == 2 * m + (q - 2) * m;
    assert x == x / (2 * m) * (2 * m) + x % (2 * m);
  }
}
