/**
 32-bit words as numbers, and the operations on them that SHA-256 is made of,
 with what each does to every bit (section 2.2 and 3.2 of FIPS 180-4).
 */
module Words {

  const WIDTH: nat := 32
  const WORDS: int := 0x1_0000_0000

  type word = x: int | 0 <= x < WORDS
  type byte = x: int | 0 <= x < 256

  function Pow2(n: nat): (p: nat)
    ensures p > 0
  {
    if n == 0 then 1 else 2 * Pow2(n - 1)
  }

  lemma {:induction false} Pow2Product(a: nat, b: nat)
    ensures Pow2(a) * Pow2(b) == Pow2(a + b)
    decreases a
  {
    if a > 0 {
      Pow2Product(a - 1, b);
    }
  }

  lemma Pow2Word()
    ensures Pow2(WIDTH) == WORDS && Pow2(31) == 0x8000_0000
  {
    Pow2Product(8, 8);
    Pow2Product(16, 16);
  }

  /** Bit i of a number. */
  function Bit(x: nat, i: nat): (b: nat)
    ensures b < 2
    decreases i
  {
    if i == 0 then x % 2 else Bit(x / 2, i - 1)
  }

  /* ---------- the operations ---------- */

  /** Addition, which wraps around. */
  function Add(x: word, y: word): (z: word)
    ensures z as int == (x as int + y as int) % 0x1_0000_0000
  {
    if x + y < WORDS then x + y else x + y - WORDS
  }

  /** Of the n low bits of two numbers: one where exactly one has a one. */
  function XorLow(x: nat, y: nat, n: nat): (z: nat)
    ensures z < Pow2(n)
    decreases n
  {
    if n == 0 then 0 else (if x % 2 == y % 2 then 0 else 1) + 2 * XorLow(x / 2, y / 2, n - 1)
  }

  /** One where both have a one. */
  function AndLow(x: nat, y: nat, n: nat): (z: nat)
    ensures z < Pow2(n)
    decreases n
  {
    if n == 0 then 0 else (if x % 2 == 1 && y % 2 == 1 then 1 else 0) + 2 * AndLow(x / 2, y / 2, n - 1)
  }

  function NotLow(x: nat, n: nat): (z: nat)
    ensures z < Pow2(n)
    decreases n
  {
    if n == 0 then 0 else 1 - x % 2 + 2 * NotLow(x / 2, n - 1)
  }

  function Xor(x: word, y: word): (z: word)
  {
    Pow2Word();
    XorLow(x, y, WIDTH)
  }

  function And(x: word, y: word): (z: word)
  {
    Pow2Word();
    AndLow(x, y, WIDTH)
  }

  function Not(x: word): (z: word)
  {
    Pow2Word();
    NotLow(x, WIDTH)
  }

  function Shr(x: word, n: nat): (y: word)
    decreases n
  {
    if n == 0 then x else Shr(x / 2, n - 1)
  }

  /** The lowest bit goes to the top, n times. */
  function Rotr(x: word, n: nat): (y: word)
    decreases n
  {
    if n == 0 then x else Rotr(RotrOne(x), n - 1)
  }

  function RotrOne(x: word): (y: word)
  {
    x / 2 + if x % 2 == 1 then 0x8000_0000 else 0
  }

  /* ---------- every bit of them ---------- */

  lemma {:induction false} XorLowBit(x: nat, y: nat, n: nat, i: nat)
    requires i < n
    ensures Bit(XorLow(x, y, n), i) == (Bit(x, i) + Bit(y, i)) % 2
    decreases n
  {
    if i > 0 {
      XorLowBit(x / 2, y / 2, n - 1, i - 1);
      assert XorLow(x, y, n) / 2 == XorLow(x / 2, y / 2, n - 1);
    }
  }

  lemma {:induction false} AndLowBit(x: nat, y: nat, n: nat, i: nat)
    requires i < n
    ensures Bit(AndLow(x, y, n), i) == if Bit(x, i) == 1 && Bit(y, i) == 1 then 1 else 0
    decreases n
  {
    if i > 0 {
      AndLowBit(x / 2, y / 2, n - 1, i - 1);
      assert AndLow(x, y, n) / 2 == AndLow(x / 2, y / 2, n - 1);
    }
  }

  lemma {:induction false} NotLowBit(x: nat, n: nat, i: nat)
    requires i < n
    ensures Bit(NotLow(x, n), i) == 1 - Bit(x, i)
    decreases n
  {
    if i > 0 {
      NotLowBit(x / 2, n - 1, i - 1);
      assert NotLow(x, n) / 2 == NotLow(x / 2, n - 1);
    }
  }

  lemma XorBit(x: word, y: word, i: nat)
    requires i < WIDTH
    ensures Bit(Xor(x, y), i) == (Bit(x, i) + Bit(y, i)) % 2
  {
    hide XorLow, Bit;
    XorLowBit(x, y, WIDTH, i);
  }

  lemma AndBit(x: word, y: word, i: nat)
    requires i < WIDTH
    ensures Bit(And(x, y), i) == if Bit(x, i) == 1 && Bit(y, i) == 1 then 1 else 0
  {
    hide AndLow, Bit;
    AndLowBit(x, y, WIDTH, i);
  }

  lemma NotBit(x: word, i: nat)
    requires i < WIDTH
    ensures Bit(Not(x), i) == 1 - Bit(x, i)
  {
    hide NotLow, Bit;
    NotLowBit(x, WIDTH, i);
  }

  /** Adding a multiple of a power of two leaves the lower bits alone. */
  lemma {:induction false} TopBit(y: nat, b: nat, k: nat, i: nat)
    requires y < Pow2(k) && b < 2 && i <= k
    ensures Bit(y + (if b == 1 then Pow2(k) else 0), i) == if i < k then Bit(y, i) else b
    decreases k
  {
    if k > 0 && i > 0 {
      TopBit(y / 2, b, k - 1, i - 1);
      assert (y + Pow2(k)) / 2 == y / 2 + Pow2(k - 1);
    }
  }

  lemma RotrOneBit(x: word, i: nat)
    requires i < WIDTH
    ensures Bit(RotrOne(x), i) == Bit(x, (i + 1) % WIDTH)
  {
    Pow2Word();
    TopBit(x / 2, x % 2, 31, i);
    NextBit(x, i);
  }

  lemma NextBit(x: nat, i: nat)
    ensures Bit(x, i + 1) == Bit(x / 2, i) && Bit(x, 0) == x % 2
  {
  }

  /** Bit i of a rotated word is the bit n places higher, around the word. */
  lemma {:induction false} RotrBit(x: word, n: nat, i: nat)
    requires i < WIDTH
    ensures Bit(Rotr(x, n), i) == Bit(x, (i + n) % WIDTH)
    decreases n
  {
    hide RotrOne, Bit;
    if n > 0 {
      var j := (i + n - 1) % WIDTH;
      RotrBit(RotrOne(x), n - 1, i);
      RotrOneBit(x, j);
      assert (j + 1) % WIDTH == (i + n) % WIDTH;
    }
  }

  /** Bit i of a shifted word is the bit n places higher, or zero beyond the top. */
  lemma {:induction false} ShrBit(x: word, n: nat, i: nat)
    ensures Bit(Shr(x, n), i) == if i + n < WIDTH then Bit(x, i + n) else 0
    decreases n
  {
    if n > 0 {
      ShrBit(x / 2, n - 1, i);
      NextBit(x, i + n - 1);
      if i + n == WIDTH {
        Pow2Word();
        HighBit(x / 2, 31, 31);
      }
    } else if i >= WIDTH {
      Pow2Word();
      HighBit(x, WIDTH, i);
    }
  }

  lemma {:induction false} HighBit(x: nat, n: nat, i: nat)
    requires x < Pow2(n) && i >= n
    ensures Bit(x, i) == 0
    decreases i
  {
    if n > 0 && i > 0 {
      HighBit(x / 2, n - 1, i - 1);
    } else if i > 0 {
      HighBit(0, 0, i - 1);
    }
  }

  /** A number below a power of two is what its bits say. */
  lemma {:induction false} SameBits(x: nat, y: nat, n: nat)
    requires x < Pow2(n) && y < Pow2(n) && forall i | 0 <= i < n :: Bit(x, i) == Bit(y, i)
    ensures x == y
    decreases n
  {
    if n > 0 {
      forall i | 0 <= i < n - 1 ensures Bit(x / 2, i) == Bit(y / 2, i) {
        assert Bit(x, i + 1) == Bit(y, i + 1);
      }
      SameBits(x / 2, y / 2, n - 1);
      assert Bit(x, 0) == Bit(y, 0);
    }
  }
}
