/**
 Machine words as bounded integers: powers of two, shifts, masks and the bitwise
 operators, with the facts the block and Feistel arithmetic needs. Shifts are defined
 bit by bit, so the proofs stay linear; LowIsMod, HighIsDiv and UpIsMul give their
 meaning as remainder, quotient and product.
 */
module Bits {

  /** 2 to the power n. */
  function Pow2(n: nat): (r: nat)
    ensures r > 0
  {
    if n == 0 then 1 else 2 * Pow2(n - 1)
  }

  /** A mask of n ones. */
  function Ones(n: nat): nat {
    Pow2(n) - 1
  }

  /** The n low bits of x. */
  function Low(x: nat, n: nat): (r: nat)
    ensures r < Pow2(n)
  {
    if n == 0 then 0 else x % 2 + 2 * Low(x / 2, n - 1)
  }

  /** x without its n low bits: the right shift. */
  function High(x: nat, n: nat): nat {
    if n == 0 then x else High(x / 2, n - 1)
  }

  /** x moved up by n bits, nothing lost. */
  function Up(x: nat, n: nat): nat {
    if n == 0 then x else 2 * Up(x, n - 1)
  }

  /** An unsigned 64-bit word. */
  type Word = x: int | 0 <= x < 0x1_0000_0000_0000_0000

  /** An unsigned 32-bit word. */
  type Word32 = x: int | 0 <= x < 0x1_0000_0000

  /** Left shift of a 64-bit word: the bits pushed past bit 63 are lost. */
  function Shl(a: Word, n: nat): Word {
    Up(a, n) % 0x1_0000_0000_0000_0000
  }

  /** Bitwise exclusive or. */
  function Xor(a: nat, b: nat): nat {
    if a == 0 then b
    else if b == 0 then a
    else (a + b) % 2 + 2 * Xor(a / 2, b / 2)
  }

  /** Bitwise and. */
  function And(a: nat, b: nat): nat {
    if a == 0 || b == 0 then 0
    else (if a % 2 == 1 && b % 2 == 1 then 1 else 0) + 2 * And(a / 2, b / 2)
  }

  /** Bitwise or. */
  function Or(a: nat, b: nat): nat {
    if a == 0 then b
    else if b == 0 then a
    else (if a % 2 == 1 || b % 2 == 1 then 1 else 0) + 2 * Or(a / 2, b / 2)
  }

  // Powers of two -------------------------------------------------------

  lemma Pow2Byte(n: nat)
    ensures Pow2(n + 8) == 256 * Pow2(n)
  {
    assert Pow2(n + 2) == 4 * Pow2(n);
    assert Pow2(n + 4) == 4 * Pow2(n + 2);
    assert Pow2(n + 6) == 4 * Pow2(n + 4);
  }

  lemma Pow2Word()
    ensures Pow2(64) == 0x1_0000_0000_0000_0000
  {
    Pow2Byte(0);
    Pow2Byte(8);
    Pow2Byte(16);
    Pow2Byte(24);
    Pow2Byte(32);
    Pow2Byte(40);
    Pow2Byte(48);
    Pow2Byte(56);
  }

  lemma {:induction false} Pow2Mono(m: nat, n: nat)
    requires m <= n
    ensures Pow2(m) <= Pow2(n)
  {
    if m < n {
      Pow2Mono(m, n - 1);
    }
  }

  lemma Pow2Fits(n: nat)
    requires n <= 64
    ensures Pow2(n) <= 0x1_0000_0000_0000_0000
  {
    Pow2Mono(n, 64);
    Pow2Word();
  }

  /** Cutting at bit 64 is what storing in a word does. */
  lemma WordIsLow(x: nat, n: nat)
    requires n == 64
    ensures x % 0x1_0000_0000_0000_0000 == Low(x, n)
  {
    Pow2Word();
    LowIsMod(x, n);
  }

  // Cutting and joining -------------------------------------------------

  lemma {:induction false} CutJoin(x: nat, n: nat)
    ensures Up(High(x, n), n) + Low(x, n) == x
  {
    if n > 0 {
      CutJoin(x / 2, n - 1);
    }
  }

  lemma {:induction false} JoinCut(a: nat, b: nat, n: nat)
    requires b < Pow2(n)
    ensures High(Up(a, n) + b, n) == a && Low(Up(a, n) + b, n) == b
  {
    if n > 0 {
      JoinCut(a, b / 2, n - 1);
      assert (Up(a, n) + b) / 2 == Up(a, n - 1) + b / 2;
    }
  }

  /** An n-bit number placed above an m-bit one has n + m bits. */
  lemma {:induction false} JoinBound(a: nat, b: nat, n: nat, m: nat)
    requires a < Pow2(n) && b < Pow2(m)
    ensures Up(a, m) + b < Pow2(n + m)
  {
    if m > 0 {
      JoinBound(a, b / 2, n, m - 1);
    }
  }

  lemma {:induction false} LowShrinks(x: nat, n: nat)
    ensures Low(x, n) <= x
  {
    if n > 0 {
      LowShrinks(x / 2, n - 1);
    }
  }

  lemma {:induction false} LowSmall(x: nat, n: nat)
    requires x < Pow2(n)
    ensures Low(x, n) == x && High(x, n) == 0
  {
    if n > 0 {
      LowSmall(x / 2, n - 1);
    }
  }

  lemma {:induction false} HighHigh(x: nat, m: nat, n: nat)
    ensures High(High(x, m), n) == High(x, m + n)
  {
    if m > 0 {
      HighHigh(x / 2, m - 1, n);
    }
  }

  lemma {:induction false} HighBound(x: nat, n: nat, m: nat)
    requires x < Pow2(n + m)
    ensures High(x, m) < Pow2(n)
  {
    if m > 0 {
      HighBound(x / 2, n, m - 1);
    }
  }

  lemma {:induction false} LowLow(x: nat, m: nat, n: nat)
    requires n <= m
    ensures Low(Low(x, m), n) == Low(x, n)
  {
    if n > 0 {
      assert Low(x, m) / 2 == Low(x / 2, m - 1);
      LowLow(x / 2, m - 1, n - 1);
    }
  }

  /** Bits n .. n+k-1 of x lie below bit m, so cutting x at bit m keeps them. */
  lemma {:induction false} LowHighLow(x: nat, m: nat, n: nat, k: nat)
    requires n + k <= m
    ensures Low(High(Low(x, m), n), k) == Low(High(x, n), k)
  {
    if n == 0 {
      LowLow(x, m, k);
    } else {
      assert Low(x, m) / 2 == Low(x / 2, m - 1);
      LowHighLow(x / 2, m - 1, n - 1, k);
    }
  }

  /** The low m + n bits are the n bits above bit m on top of the m low ones. */
  lemma {:induction false} LowSplit(x: nat, m: nat, n: nat)
    ensures Low(x, m + n) == Up(Low(High(x, m), n), m) + Low(x, m)
  {
    if m > 0 {
      LowSplit(x / 2, m - 1, n);
    }
  }

  lemma {:induction false} HighMono(x: nat, y: nat, n: nat)
    requires x <= y
    ensures High(x, n) <= High(y, n)
  {
    if n > 0 {
      HighMono(x / 2, y / 2, n - 1);
    }
  }

  lemma {:induction false} UpUp(x: nat, m: nat, n: nat)
    ensures Up(Up(x, m), n) == Up(x, m + n)
  {
    if n > 0 {
      UpUp(x, m, n - 1);
    }
  }

  // Arithmetic meaning --------------------------------------------------

  lemma {:induction false} UpIsMul(x: nat, n: nat)
    ensures Up(x, n) == x * Pow2(n)
  {
    if n > 0 {
      UpIsMul(x, n - 1);
    }
  }

  lemma SmallMultiple(d: int, m: int)
    requires m > 0
    ensures d >= 1 ==> d * m >= m
    ensures d <= -1 ==> d * m <= -m
  {
  }

  /** Quotient and remainder are determined by their defining equation. */
  lemma DivModUnique(a: int, m: int, q: int, r: int)
    requires m > 0 && 0 <= r < m && a == q * m + r
    ensures a / m == q && a % m == r
  {
    assert (q - a / m) * m == a % m - r;
    SmallMultiple(q - a / m, m);
  }

  lemma LowIsMod(x: nat, n: nat)
    ensures Low(x, n) == x % Pow2(n)
    ensures High(x, n) == x / Pow2(n)
  {
    CutJoin(x, n);
    UpIsMul(High(x, n), n);
    DivModUnique(x, Pow2(n), High(x, n), Low(x, n));
  }

  // Bitwise operators ---------------------------------------------------

  lemma {:induction false} XorSelf(a: nat)
    ensures Xor(a, a) == 0
  {
    if a != 0 {
      XorSelf(a / 2);
    }
  }

  /** The bits of an exclusive or, lowest first. */
  lemma XorBits(a: nat, b: nat)
    ensures Xor(a, b) % 2 == (a + b) % 2 && Xor(a, b) / 2 == Xor(a / 2, b / 2)
  {
    if a == 0 {
      assert Xor(a, b) == b && Xor(a / 2, b / 2) == b / 2;
    } else if b == 0 {
      XorZeroRight(a);
      XorZeroRight(a / 2);
    } else {
      BitOnTop((a + b) % 2, Xor(a / 2, b / 2));
    }
  }

  lemma XorZeroRight(a: nat)
    ensures Xor(a, 0) == a
  {
  }

  lemma BitOnTop(bit: nat, rest: nat)
    requires bit < 2
    ensures (bit + 2 * rest) % 2 == bit && (bit + 2 * rest) / 2 == rest
  {
  }

  /** Exclusive or with the same mask twice gives the word back. */
  lemma {:induction false} XorCancel(a: nat, b: nat)
    ensures Xor(Xor(a, b), b) == a
  {
    if a == 0 {
      XorSelf(b);
    } else {
      XorBits(a, b);
      XorBits(Xor(a, b), b);
      XorCancel(a / 2, b / 2);
    }
  }

  /** Exclusive or is zero exactly on equal words. */
  lemma XorZero(a: nat, b: nat)
    ensures Xor(a, b) == 0 <==> a == b
  {
    XorSelf(a);
    XorCancel(a, b);
  }

  lemma {:induction false} XorComm(a: nat, b: nat)
    ensures Xor(a, b) == Xor(b, a)
  {
    if a != 0 && b != 0 {
      XorComm(a / 2, b / 2);
    }
  }

  lemma {:induction false} XorBound(a: nat, b: nat, n: nat)
    requires a < Pow2(n) && b < Pow2(n)
    ensures Xor(a, b) < Pow2(n)
  {
    if a != 0 && b != 0 {
      XorBound(a / 2, b / 2, n - 1);
    }
  }

  /** Masking with n ones keeps the n low bits. */
  lemma {:induction false} AndMask(x: nat, n: nat)
    ensures And(x, Ones(n)) == Low(x, n)
  {
    if n > 0 {
      AndMask(x / 2, n - 1);
      if x == 0 {
        LowSmall(0, n);
      }
    }
  }

  /** Masking with a shifted mask masks the bits it covers and leaves them in place. */
  lemma {:induction false} AndUp(x: nat, m: nat, n: nat)
    ensures And(x, Up(m, n)) == Up(And(High(x, n), m), n)
  {
    if n > 0 {
      AndUp(x / 2, m, n - 1);
      AndDouble(x, Up(m, n - 1));
    }
  }

  lemma AndDouble(x: nat, k: nat)
    ensures And(x, 2 * k) == 2 * And(x / 2, k)
  {
  }

  /** Or of a shifted word and a word below the shift is addition. */
  lemma {:induction false} OrDisjoint(a: nat, b: nat, n: nat)
    requires b < Pow2(n)
    ensures Or(Up(a, n), b) == Up(a, n) + b
  {
    if n > 0 {
      OrDisjoint(a, b / 2, n - 1);
    }
  }

  /** A left shift that loses no bits. */
  lemma ShlExact(a: Word, k: nat, n: nat)
    requires a < Pow2(k) && k + n <= 64
    ensures Shl(a, n) == Up(a, n) < Pow2(k + n)
  {
    JoinBound(a, 0, k, n);
    Pow2Fits(k + n);
  }

  lemma {:induction false} OrBound(a: nat, b: nat, n: nat)
    requires a < Pow2(n) && b < Pow2(n)
    ensures Or(a, b) < Pow2(n)
  {
    if a != 0 && b != 0 {
      OrBound(a / 2, b / 2, n - 1);
    }
  }

  lemma {:induction false} AndBound(a: nat, b: nat)
    ensures And(a, b) <= a
  {
    if a != 0 && b != 0 {
      AndBound(a / 2, b / 2);
    }
  }

  lemma WordOps(a: Word, b: Word)
    ensures Xor(a, b) < 0x1_0000_0000_0000_0000
    ensures Or(a, b) < 0x1_0000_0000_0000_0000
  {
    Pow2Word();
    XorBound(a, b, 64);
    OrBound(a, b, 64);
  }

  function AndWord(a: Word, b: Word): Word {
    AndBound(a, b);
    And(a, b)
  }

  function XorWord(a: Word, b: Word): Word {
    WordOps(a, b);
    Xor(a, b)
  }

  function OrWord(a: Word, b: Word): Word {
    WordOps(a, b);
    Or(a, b)
  }

  lemma {:induction false} LowUp(x: nat, m: nat, n: nat)
    ensures Low(Up(x, m), m + n) == Up(Low(x, n), m)
  {
    if m > 0 {
      LowUp(x, m - 1, n);
    }
  }

  lemma {:induction false} LowOnes(m: nat, n: nat)
    ensures Low(Ones(m), n) == Ones(if m < n then m else n)
  {
    if m > 0 && n > 0 {
      LowOnes(m - 1, n - 1);
    } else if m == 0 {
      LowSmall(0, n);
    }
  }

  lemma {:induction false} HighUp(x: nat, m: nat, n: nat)
    ensures High(Up(x, m + n), n) == Up(x, m)
  {
    if n > 0 {
      HighUp(x, m, n - 1);
    }
  }
}
