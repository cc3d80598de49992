/** Unsigned machine words as natural numbers, with the bitwise operators defined bit by bit.
    The lemmas say what the masks and shifts of the program compute in terms of division. */
module Bits {

  function Pow2(n: nat): (r: nat)
    ensures r > 0
  {
    if n == 0 then 1 else 2 * Pow2(n - 1)
  }

  const WORD: nat := 0x1_0000_0000

  function And(x: nat, y: nat): nat
    decreases x
  {
    if x == 0 || y == 0 then 0
    else 2 * And(x / 2, y / 2) + (if x % 2 == 1 && y % 2 == 1 then 1 else 0)
  }

  function Or(x: nat, y: nat): nat
    decreases x
  {
    if x == 0 then y else if y == 0 then x
    else 2 * Or(x / 2, y / 2) + (if x % 2 == 1 || y % 2 == 1 then 1 else 0)
  }

  function Xor(x: nat, y: nat): nat
    decreases x
  {
    if x == 0 then y else if y == 0 then x
    else 2 * Xor(x / 2, y / 2) + (if x % 2 != y % 2 then 1 else 0)
  }

  /** x << k in a 32-bit word: the bits pushed out at the top are lost. */
  function Shl(x: nat, k: nat): nat {
    (x * Pow2(k)) % WORD
  }

  /** x >> k */
  function Shr(x: nat, k: nat): nat {
    QuotientNat(x, Pow2(k));
    x / Pow2(k)
  }

  lemma QuotientNat(x: nat, m: nat)
    requires m > 0
    ensures x / m >= 0
  {
    MulStep(x / m, m);
  }

  /** The shifts the program uses, as repeated division by 256. */
  lemma ShiftsDivide(x: nat)
    ensures Shr(x, 8) == x / 0x100
    ensures Shr(x, 16) == x / 0x100 / 0x100
    ensures Shr(x, 24) == x / 0x100 / 0x100 / 0x100
  {
    Pow2Values();
  }

  lemma Pow2Values()
    ensures Pow2(8) == 0x100
    ensures Pow2(16) == 0x1_0000
    ensures Pow2(24) == 0x100_0000
    ensures Pow2(32) == WORD
  {
    assert Pow2(4) == 16;
    assert Pow2(8) == 0x100;
    assert Pow2(12) == 0x1000;
    assert Pow2(16) == 0x1_0000;
    assert Pow2(20) == 0x10_0000;
    assert Pow2(24) == 0x100_0000;
    assert Pow2(28) == 0x1000_0000;
    assert Pow2(32) == WORD;
  }

  lemma {:induction false} Pow2Add(a: nat, b: nat)
    ensures Pow2(a + b) == Pow2(a) * Pow2(b)
  {
    if a > 0 {
      Pow2Add(a - 1, b);
      assert Pow2(a) == 2 * Pow2(a - 1) && Pow2(a + b) == 2 * Pow2(a - 1 + b);
      TwiceProduct(Pow2(a - 1), Pow2(b));
    }
  }

  lemma TwiceProduct(p: nat, q: nat)
    ensures 2 * (p * q) == (2 * p) * q
  {
  }

  lemma {:induction false} Pow2Monotone(a: nat, b: nat)
    requires a <= b
    ensures Pow2(a) <= Pow2(b)
  {
    if a < b {
      Pow2Monotone(a, b - 1);
    }
  }

  /** Halving a number halves its quotient and keeps the odd bit at the bottom of its remainder. */
  lemma HalfMod(x: nat, m: nat)
    requires m > 0
    ensures x % (2 * m) == 2 * ((x / 2) % m) + x % 2
  {
    var h := x / 2;
    var q, r := h / m, h % m;
    assert h == q * m + r;
    assert x == 2 * h + x % 2;
    assert x == q * (2 * m) + (2 * r + x % 2) by {
      assert 2 * (q * m) == q * (2 * m);
    }
    DivModUnique(x, 2 * m, q, 2 * r + x % 2);
  }

  lemma DivModUnique(x: int, m: int, q: int, r: int)
    requires m > 0 && 0 <= r < m && x == q * m + r
    ensures x / m == q && x % m == r
  {
    var d := q - x / m;
    assert d * m == x % m - r;
    MulStep(d, m);
  }

  lemma MulStep(d: int, m: int)
    requires m > 0
    ensures d >= 1 ==> d * m >= m
    ensures d <= -1 ==> d * m <= -m
  {
  }

  // Aligned blocks: multiples of a block size.

  lemma FloorIsAligned(x: nat, size: nat)
    requires size > 0
    ensures (x - x % size) % size == 0
  {
    var q := x / size;
    assert x - x % size == q * size;
    DivModUnique(q * size, size, q, 0);
  }

  lemma FloorIsBlock(base: nat, size: nat, x: nat)
    requires size > 0 && base % size == 0
    ensures x - x % size == base <==> base <= x < base + size
  {
    if base <= x < base + size {
      var q := base / size;
      assert base == q * size;
      DivModUnique(x, size, q, x - base);
    }
  }

  lemma BlockFits(base: nat, size: nat, count: nat)
    requires size > 0 && base % size == 0 && base < count * size
    ensures base + size <= count * size
  {
    var q := base / size;
    assert base == q * size;
    MulStep(count - q, size);
    assert (count - q) * size == count * size - base;
  }

  /** Addition in a 32-bit word. */
  function Add32(x: nat, y: nat): (r: nat)
    ensures r < WORD
    ensures x + y < WORD ==> r == x + y
  {
    (x + y) % WORD
  }

  /** x & (2^k - 1) keeps the low k bits. */
  lemma {:induction false} AndLowOnes(x: nat, k: nat)
    ensures And(x, Pow2(k) - 1) == x % Pow2(k)
    decreases k
  {
    if k > 0 {
      var m := Pow2(k - 1);
      AndLowOnes(x / 2, k - 1);
      HalfMod(x, m);
      AndOdd(x, m, Pow2(k) - 1);
    }
  }

  lemma AndOdd(x: nat, m: nat, ones: nat)
    requires m > 0 && ones == 2 * m - 1
    ensures And(x, ones) == 2 * And(x / 2, m - 1) + x % 2
  {
    assert ones / 2 == m - 1 && ones % 2 == 1;
  }

  lemma LowByte(x: nat)
    ensures And(x, 0xff) == x % 0x100
  {
    Pow2Values();
    AndLowOnes(x, 8);
  }

  /** A mask of w - k ones followed by k zeros. */
  function HighOnes(w: nat, k: nat): (m: nat)
    requires k <= w
    ensures m < Pow2(w)
  {
    Pow2Monotone(k, w);
    Pow2(w) - Pow2(k)
  }

  /** x & mask clears the low k bits. */
  lemma {:induction false} AndHighOnes(w: nat, x: nat, k: nat)
    requires k <= w && x < Pow2(w)
    ensures And(x, HighOnes(w, k)) == x - x % Pow2(k)
  {
    if k == 0 {
      AndLowOnes(x, w);
      DivModUnique(x, Pow2(w), 0, x);
      DivModUnique(x, 1, x, 0);
    } else {
      var m, h := Pow2(k - 1), HighOnes(w - 1, k - 1);
      AndHighOnes(w - 1, x / 2, k - 1);
      HalfMod(x, m);
      assert HighOnes(w, k) == 2 * h;
      AndEven(x, h);
    }
  }

  lemma AndEven(x: nat, h: nat)
    ensures And(x, 2 * h) == 2 * And(x / 2, h)
  {
    assert (2 * h) / 2 == h && (2 * h) % 2 == 0;
  }

  /** One bit of x ^ y at a time, also when one of them is 0. */
  lemma XorBit(x: nat, y: nat)
    ensures Xor(x, y) == 2 * Xor(x / 2, y / 2) + (if x % 2 != y % 2 then 1 else 0)
  {
  }

  /** y ^ 11...1 complements y. */
  lemma {:induction false} XorOnes(w: nat, y: nat)
    requires y < Pow2(w)
    ensures Xor(y, Pow2(w) - 1) == Pow2(w) - 1 - y
    decreases w
  {
    if w > 0 {
      var m := Pow2(w - 1);
      XorOnes(w - 1, y / 2);
      XorOdd(y, m);
      assert Pow2(w) == 2 * m;
    }
  }

  lemma XorOdd(y: nat, m: nat)
    requires m > 0
    ensures Xor(y, 2 * m - 1) == 2 * Xor(y / 2, m - 1) + 1 - y % 2
  {
    XorBit(y, 2 * m - 1);
    assert (2 * m - 1) / 2 == m - 1 && (2 * m - 1) % 2 == 1;
  }

  /** x | (2^k - 1), for x with its low k bits clear, fills those bits. */
  lemma {:induction false} OrLowOnes(x: nat, k: nat)
    requires x % Pow2(k) == 0
    ensures Or(x, Pow2(k) - 1) == x + Pow2(k) - 1
    decreases k
  {
    if k > 0 {
      var m := Pow2(k - 1);
      HalfMod(x, m);
      OrLowOnes(x / 2, k - 1);
      OrOdd(x / 2, m);
      assert x == 2 * (x / 2) && Pow2(k) == 2 * m;
    }
  }

  lemma OrOdd(h: nat, m: nat)
    requires m > 0
    ensures Or(2 * h, 2 * m - 1) == 2 * Or(h, m - 1) + 1
  {
    assert (2 * m - 1) / 2 == m - 1 && (2 * m - 1) % 2 == 1;
  }
}
