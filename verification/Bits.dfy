/** Machine words as natural numbers, described bit by bit.
    Every operation is defined by recursion on the binary digits, so that a fact
    about a word is a fact about its bits (SameBits) and conversely. */
module Bits {

  type byte = x: int | 0 <= x < 256

  const WORD_SIZE: nat := 0x1_0000_0000_0000_0000

  type word = x: int | 0 <= x < WORD_SIZE

  function Pow2(n: nat): (r: nat)
    ensures r > 0
  {
    if n == 0 then 1 else 2 * Pow2(n - 1)
  }

  /** Bit i of x is set. */
  predicate Bit(x: nat, i: nat) {
    if i == 0 then x % 2 == 1 else Bit(x / 2, i - 1)
  }

  function Digit(b: bool): nat {
    if b then 1 else 0
  }

  function Or(x: nat, y: nat): nat {
    if x == 0 && y == 0 then 0 else Digit(x % 2 == 1 || y % 2 == 1) + 2 * Or(x / 2, y / 2)
  }

  function And(x: nat, y: nat): nat {
    if x == 0 && y == 0 then 0 else Digit(x % 2 == 1 && y % 2 == 1) + 2 * And(x / 2, y / 2)
  }

  function Xor(x: nat, y: nat): nat {
    if x == 0 && y == 0 then 0 else Digit(x % 2 != y % 2) + 2 * Xor(x / 2, y / 2)
  }

  /** The n lowest bits of x. */
  function Low(x: nat, n: nat): nat {
    if n == 0 then 0 else x % 2 + 2 * Low(x / 2, n - 1)
  }

  /** The n lowest bits of the complement of x. */
  function Not(x: nat, n: nat): nat {
    if n == 0 then 0 else (1 - x % 2) + 2 * Not(x / 2, n - 1)
  }

  function Shr(x: nat, k: nat): nat {
    if k == 0 then x else Shr(x / 2, k - 1)
  }

  /** Left shift without truncation. */
  function Shift(x: nat, k: nat): nat {
    if k == 0 then x else 2 * Shift(x, k - 1)
  }

  /** Left shift of a 64-bit register. */
  function Shl(x: nat, k: nat): nat {
    Low(Shift(x, k), 64)
  }

  /** popcount */
  function Ones(x: nat): nat {
    if x == 0 then 0 else x % 2 + Ones(x / 2)
  }

  /** Number of set bits of x among the i lowest. */
  function OnesBelow(x: nat, i: nat): (r: nat)
    ensures r <= i
  {
    if i == 0 then 0 else OnesBelow(x, i - 1) + Digit(Bit(x, i - 1))
  }

  // ---------- bits of each operation ----------

  lemma ZeroBit(i: nat)
    ensures !Bit(0, i)
    decreases i
  {
  }

  lemma {:induction false} OrBit(x: nat, y: nat, i: nat)
    ensures Bit(Or(x, y), i) <==> Bit(x, i) || Bit(y, i)
    decreases i
  {
    if x == 0 && y == 0 {
      ZeroBit(i);
    } else if i > 0 {
      OrBit(x / 2, y / 2, i - 1);
    }
  }

  lemma {:induction false} AndBit(x: nat, y: nat, i: nat)
    ensures Bit(And(x, y), i) <==> Bit(x, i) && Bit(y, i)
    decreases i
  {
    if x == 0 && y == 0 {
      ZeroBit(i);
    } else if i > 0 {
      AndBit(x / 2, y / 2, i - 1);
    }
  }

  lemma {:induction false} XorBit(x: nat, y: nat, i: nat)
    ensures Bit(Xor(x, y), i) <==> Bit(x, i) != Bit(y, i)
    decreases i
  {
    if x == 0 && y == 0 {
      ZeroBit(i);
    } else if i > 0 {
      XorBit(x / 2, y / 2, i - 1);
    }
  }

  lemma {:induction false} LowBit(x: nat, n: nat, i: nat)
    ensures Bit(Low(x, n), i) <==> i < n && Bit(x, i)
    decreases i
  {
    if n == 0 {
      ZeroBit(i);
      return;
    }
    var rest := Low(x / 2, n - 1);
    assert Low(x, n) / 2 == rest && Low(x, n) % 2 == x % 2;
    if i > 0 {
      LowBit(x / 2, n - 1, i - 1);
    }
  }

  lemma {:induction false} NotBit(x: nat, n: nat, i: nat)
    ensures Bit(Not(x, n), i) <==> i < n && !Bit(x, i)
    decreases i
  {
    if n == 0 {
      ZeroBit(i);
      return;
    }
    var rest := Not(x / 2, n - 1);
    assert Not(x, n) / 2 == rest && Not(x, n) % 2 == 1 - x % 2;
    if i > 0 {
      NotBit(x / 2, n - 1, i - 1);
    }
  }

  lemma {:induction false} ShrBit(x: nat, k: nat, i: nat)
    ensures Bit(Shr(x, k), i) <==> Bit(x, i + k)
    decreases k
  {
    if k > 0 {
      ShrBit(x / 2, k - 1, i);
    }
  }

  lemma {:induction false} ShiftBit(x: nat, k: nat, i: nat)
    ensures Bit(Shift(x, k), i) <==> i >= k && Bit(x, i - k)
    decreases k
  {
    if k > 0 {
      if i > 0 {
        ShiftBit(x, k - 1, i - 1);
      }
    }
  }

  lemma ShlBit(x: nat, k: nat, i: nat)
    ensures Bit(Shl(x, k), i) <==> k <= i < 64 && Bit(x, i - k)
  {
    LowBit(Shift(x, k), 64, i);
    ShiftBit(x, k, i);
  }

  /** Two words with the same bits are equal. */
  lemma {:induction false} SameBits(x: nat, y: nat)
    requires forall i: nat :: Bit(x, i) == Bit(y, i)
    ensures x == y
    decreases x + y
  {
    if x + y > 0 {
      assert Bit(x, 0) == Bit(y, 0);
      forall i: nat ensures Bit(x / 2, i) == Bit(y / 2, i) {
        assert Bit(x, i + 1) == Bit(y, i + 1);
      }
      SameBits(x / 2, y / 2);
    }
  }

  // ---------- size of a word ----------

  lemma {:induction false} LowBound(x: nat, n: nat)
    ensures Low(x, n) < Pow2(n)
    decreases n
  {
    if n > 0 {
      LowBound(x / 2, n - 1);
    }
  }

  lemma {:induction false} LowOfSmall(x: nat, n: nat)
    requires x < Pow2(n)
    ensures Low(x, n) == x
    decreases n
  {
    if n > 0 {
      LowOfSmall(x / 2, n - 1);
    }
  }

  /** A word below 2^n has no bit at or above n. */
  lemma HighBitsClear(x: nat, n: nat, i: nat)
    requires x < Pow2(n) && n <= i
    ensures !Bit(x, i)
  {
    LowOfSmall(x, n);
    LowBit(x, n, i);
  }

  /** A word with no bit at or above n is below 2^n. */
  lemma BoundFromBits(x: nat, n: nat)
    requires forall i: nat :: n <= i ==> !Bit(x, i)
    ensures x < Pow2(n)
  {
    forall i: nat ensures Bit(Low(x, n), i) == Bit(x, i) {
      LowBit(x, n, i);
    }
    SameBits(Low(x, n), x);
    LowBound(x, n);
  }

  lemma {:induction false} Pow2Mono(m: nat, n: nat)
    requires m <= n
    ensures Pow2(m) <= Pow2(n)
    decreases n
  {
    if m < n {
      Pow2Mono(m, n - 1);
    }
  }

  lemma Pow2Values()
    ensures Pow2(8) == 256 && Pow2(9) == 512 && Pow2(64) == WORD_SIZE && Pow2(63) * 2 == WORD_SIZE
    ensures Pow2(56) * 256 == WORD_SIZE
  {
    assert Pow2(8) == 256;
    assert Pow2(16) == 256 * Pow2(8) by { Pow2Add(8, 8); }
    assert Pow2(32) == 65536 * 65536 by { Pow2Add(16, 16); }
    assert Pow2(64) == Pow2(32) * Pow2(32) by { Pow2Add(32, 32); }
    Pow2Add(56, 8);
  }

  lemma {:induction false} Pow2Add(m: nat, n: nat)
    ensures Pow2(m + n) == Pow2(m) * Pow2(n)
    decreases n
  {
    if n > 0 {
      Pow2Add(m, n - 1);
    }
  }

  // ---------- shifts as arithmetic ----------

  lemma {:induction false} ShiftIsMul(x: nat, k: nat)
    ensures Shift(x, k) == x * Pow2(k)
    decreases k
  {
    if k > 0 {
      ShiftIsMul(x, k - 1);
    }
  }

  /** Or of a shifted word and one that fits below it is their sum. */
  lemma {:induction false} OrDisjoint(x: nat, k: nat, y: nat)
    requires y < Pow2(k)
    ensures Or(Shift(x, k), y) == Shift(x, k) + y
    decreases k
  {
    if k == 0 {
      OrZero(x);
    } else {
      var s := Shift(x, k - 1);
      OrDisjoint(x, k - 1, y / 2);
      if 2 * s == 0 && y == 0 {
      } else {
        assert Or(2 * s, y) == Digit(y % 2 == 1) + 2 * Or(s, y / 2);
      }
    }
  }

  lemma MulSign(b: nat, d: int)
    requires b > 0
    ensures d >= 1 ==> b * d >= b
    ensures d <= -1 ==> b * d + b <= 0
  {
  }

  lemma {:induction false} OrComm(x: nat, y: nat)
    ensures Or(x, y) == Or(y, x)
    decreases x + y
  {
    if x + y > 0 {
      OrComm(x / 2, y / 2);
    }
  }

  lemma {:induction false} OrZero(x: nat)
    ensures Or(x, 0) == x
  {
    if x > 0 {
      OrZero(x / 2);
    }
  }

  lemma {:induction false} ShrOfShift(x: nat, k: nat)
    ensures Shr(Shift(x, k), k) == x
    decreases k
  {
    if k > 0 {
      ShrOfShift(x, k - 1);
    }
  }

  lemma {:induction false} ShrOfSum(x: nat, k: nat, y: nat)
    requires y < Pow2(k)
    ensures Shr(Shift(x, k) + y, k) == x
    decreases k
  {
    if k > 0 {
      var s := Shift(x, k - 1);
      assert (2 * s + y) / 2 == s + y / 2;
      ShrOfSum(x, k - 1, y / 2);
    }
  }

  lemma {:induction false} LowOfSum(x: nat, k: nat, y: nat)
    requires y < Pow2(k)
    ensures Low(Shift(x, k) + y, k) == y
    decreases k
  {
    if k > 0 {
      var s := Shift(x, k - 1);
      assert (2 * s + y) / 2 == s + y / 2;
      LowOfSum(x, k - 1, y / 2);
    }
  }

  lemma Split(x: nat, k: nat)
    ensures x == Shift(Shr(x, k), k) + Low(x, k)
    decreases k
  {
    if k > 0 {
      Split(x / 2, k - 1);
    }
  }

  /** A mask of n ones keeps the n lowest bits. */
  lemma {:induction false} AndMask(x: nat, n: nat)
    ensures And(x, Pow2(n) - 1) == Low(x, n)
    decreases n
  {
    if n == 0 {
      AndZero(x);
    } else {
      var m := Pow2(n) - 1;
      assert m % 2 == 1 && m / 2 == Pow2(n - 1) - 1;
      AndMask(x / 2, n - 1);
    }
  }

  lemma {:induction false} AndZero(x: nat)
    ensures And(x, 0) == 0
  {
    if x > 0 {
      AndZero(x / 2);
    }
  }

  // ---------- exclusive or ----------

  lemma {:induction false} XorInverse(x: nat, y: nat)
    ensures Xor(Xor(x, y), y) == x
    decreases x + y
  {
    if x + y > 0 {
      XorInverse(x / 2, y / 2);
    }
  }

  lemma {:induction false} XorComm(x: nat, y: nat)
    ensures Xor(x, y) == Xor(y, x)
    decreases x + y
  {
    if x + y > 0 {
      XorComm(x / 2, y / 2);
    }
  }

  lemma {:induction false} XorHigh(x: nat, c: nat, k: nat)
    requires c < Pow2(k)
    ensures Shr(Xor(x, c), k) == Shr(x, k)
    decreases k
  {
    if k == 0 {
      XorZero(x);
    } else if x + c > 0 {
      XorHigh(x / 2, c / 2, k - 1);
    }
  }

  lemma {:induction false} XorZero(x: nat)
    ensures Xor(x, 0) == x
  {
    if x > 0 {
      XorZero(x / 2);
    }
  }

  /** Exclusive or with a byte stays in the block of 256 slots. */
  lemma XorBlock(x: nat, c: byte)
    ensures Xor(x, c) / 256 == x / 256
  {
    Shr8(x);
    Shr8(Xor(x, c));
    XorHigh(x, c, 8);
  }

  lemma Shr8(x: nat)
    ensures Pow2(8) == 256 && Shr(x, 8) == x / 256
  {
    Shr4(x, 4);
    Shr4(x / 16, 0);
    assert Shr(x / 16 / 16, 0) == x / 256;
    Pow2Values();
  }

  lemma Shr4(x: nat, k: nat)
    ensures Shr(x, k + 4) == Shr(x / 16, k)
  {
    assert Shr(x, k + 4) == Shr(x / 2, k + 3) == Shr(x / 2 / 2, k + 2);
    assert Shr(x / 2 / 2, k + 2) == Shr(x / 2 / 2 / 2, k + 1) == Shr(x / 2 / 2 / 2 / 2, k);
  }

  lemma XorInjective(x: nat, a: nat, b: nat)
    requires Xor(x, a) == Xor(x, b)
    ensures a == b
  {
    XorComm(x, a);
    XorComm(x, b);
    XorInverse(a, x);
    XorInverse(b, x);
  }

  // ---------- single bits of a register ----------

  lemma {:induction false} OneBit(i: nat)
    ensures Bit(1, i) <==> i == 0
    decreases i
  {
    if i > 0 {
      ZeroBit(i - 1);
    }
  }

  lemma PowerBit(j: nat, i: nat)
    requires j < 64
    ensures Bit(Shl(1, j), i) <==> i == j
  {
    ShlBit(1, j, i);
    if j <= i { OneBit(i - j); }
  }

  lemma TestBit(x: nat, j: nat)
    requires j < 64
    ensures And(x, Shl(1, j)) != 0 <==> Bit(x, j)
  {
    AndBit(x, Shl(1, j), j);
    PowerBit(j, j);
    if Bit(x, j) {
      ZeroBit(j);
    } else {
      forall i: nat ensures Bit(And(x, Shl(1, j)), i) == Bit(0, i) {
        AndBit(x, Shl(1, j), i);
        PowerBit(j, i);
        ZeroBit(i);
      }
      SameBits(And(x, Shl(1, j)), 0);
    }
  }

  lemma WordBits(x: nat, i: nat)
    requires x < WORD_SIZE && 64 <= i
    ensures !Bit(x, i)
  {
    Pow2Values();
    HighBitsClear(x, 64, i);
  }

  lemma WordFromBits(x: nat)
    requires forall i: nat :: 64 <= i ==> !Bit(x, i)
    ensures x < WORD_SIZE
  {
    Pow2Values();
    BoundFromBits(x, 64);
  }

  lemma SetBitOf(x: nat, j: nat)
    requires x < WORD_SIZE && j < 64
    ensures Or(x, Shl(1, j)) < WORD_SIZE
    ensures forall i: nat :: Bit(Or(x, Shl(1, j)), i) <==> i == j || Bit(x, i)
  {
    forall i: nat ensures Bit(Or(x, Shl(1, j)), i) <==> i == j || Bit(x, i) {
      OrBit(x, Shl(1, j), i);
      PowerBit(j, i);
    }
    forall i: nat | 64 <= i ensures !Bit(Or(x, Shl(1, j)), i) {
      WordBits(x, i);
    }
    WordFromBits(Or(x, Shl(1, j)));
  }

  lemma ClearBitOf(x: nat, j: nat)
    requires x < WORD_SIZE && j < 64
    ensures And(x, Not(Shl(1, j), 64)) < WORD_SIZE
    ensures forall i: nat :: Bit(And(x, Not(Shl(1, j), 64)), i) <==> i != j && Bit(x, i)
  {
    forall i: nat ensures Bit(And(x, Not(Shl(1, j), 64)), i) <==> i != j && Bit(x, i) {
      AndBit(x, Not(Shl(1, j), 64), i);
      NotBit(Shl(1, j), 64, i);
      PowerBit(j, i);
      if 64 <= i { WordBits(x, i); }
    }
    forall i: nat | 64 <= i ensures !Bit(And(x, Not(Shl(1, j), 64)), i) {
      WordBits(x, i);
    }
    WordFromBits(And(x, Not(Shl(1, j), 64)));
  }

  // ---------- population count ----------

  lemma {:induction false} OnesBelowHalf(x: nat, i: nat)
    requires i > 0
    ensures OnesBelow(x, i) == x % 2 + OnesBelow(x / 2, i - 1)
  {
    if i > 1 {
      OnesBelowHalf(x, i - 1);
    }
  }

  lemma {:induction false} OnesCountsBits(x: nat, n: nat)
    requires x < Pow2(n)
    ensures Ones(x) == OnesBelow(x, n)
    decreases n
  {
    if n > 0 {
      OnesBelowHalf(x, n);
      OnesCountsBits(x / 2, n - 1);
      if x == 0 {
        assert Ones(x / 2) == 0;
      }
    }
  }

  lemma {:induction false} OnesBelowShift(x: nat, k: nat, y: nat, i: nat)
    requires forall j: nat :: j < i + k ==> (Bit(y, j) <==> j >= k && Bit(x, j - k))
    ensures OnesBelow(y, i + k) == OnesBelow(x, i)
    decreases i
  {
    if i > 0 {
      OnesBelowShift(x, k, y, i - 1);
      assert Bit(y, i + k - 1) == Bit(x, i - 1);
    } else {
      NoOnes(y, k);
    }
  }

  lemma {:induction false} NoOnes(y: nat, k: nat)
    requires forall j: nat :: j < k ==> !Bit(y, j)
    ensures OnesBelow(y, k) == 0
  {
    if k > 0 {
      NoOnes(y, k - 1);
    }
  }

  /** Shifting out all but the j lowest bits of an n-bit register counts them. */
  lemma OnesOfLowShift(x: nat, n: nat, j: nat)
    requires j <= n
    ensures Ones(Low(Shift(x, n - j), n)) == OnesBelow(x, j)
  {
    var k := n - j;
    var y := Low(Shift(x, k), n);
    LowBound(Shift(x, k), n);
    OnesCountsBits(y, n);
    forall i: nat | i < j + k ensures Bit(y, i) <==> i >= k && Bit(x, i - k) {
      LowBit(Shift(x, k), n, i);
      ShiftBit(x, k, i);
    }
    OnesBelowShift(x, k, y, j);
  }

  lemma OnesOfShl(x: nat, j: nat)
    requires j <= 64
    ensures Ones(Shl(x, 64 - j)) == OnesBelow(x, j)
  {
    OnesOfLowShift(x, 64, j);
  }

  /** Position of the k-th set bit, counted from 0: the primitive select_in_word. */
  function SelectInWord(x: nat, k: nat): nat
    requires k < Ones(x)
  {
    if x % 2 == 1 && k == 0 then 0
    else 1 + SelectInWord(x / 2, k - x % 2)
  }

  lemma {:induction false} SelectInWordFinds(x: nat, k: nat, n: nat)
    requires k < Ones(x) && x < Pow2(n)
    ensures var p := SelectInWord(x, k); p < n && Bit(x, p) && OnesBelow(x, p) == k
    decreases x
  {
    if x % 2 == 1 && k == 0 {
    } else {
      SelectInWordFinds(x / 2, k - x % 2, n - 1);
      OnesBelowHalf(x, SelectInWord(x, k));
    }
  }
}
