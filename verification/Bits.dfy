/**
 Bitwise operators on machine words read as numbers, and how the two word updates of the
 page bitmap (set one bit, clear one bit) act on each bit of a word.
 */
module Bits {
  import opened Arithmetic

  function Pow2(k: nat): (p: nat)
    ensures p > 0
  {
    if k == 0 then 1 else 2 * Pow2(k - 1)
  }

  /** `a & b` */
  function And(a: nat, b: nat): nat
    decreases a
  {
    if a == 0 then 0 else 2 * And(a / 2, b / 2) + (a % 2) * (b % 2)
  }

  /** `a | b` */
  function Or(a: nat, b: nat): nat
    decreases a + b
  {
    if a == 0 && b == 0 then 0
    else 2 * Or(a / 2, b / 2) + (if a % 2 == 1 || b % 2 == 1 then 1 else 0)
  }

  /** `a & !b` */
  function AndNot(a: nat, b: nat): nat
    decreases a
  {
    if a == 0 then 0 else 2 * AndNot(a / 2, b / 2) + (if b % 2 == 1 then 0 else a % 2)
  }

  /** The meaning of a word: which of its bits are one. */
  predicate Bit(word: nat, k: nat)
    decreases k
  {
    if k == 0 then word % 2 == 1 else Bit(word / 2, k - 1)
  }

  lemma {:induction false} ZeroHasNoBits(k: nat)
    ensures !Bit(0, k)
  {
    if k > 0 { ZeroHasNoBits(k - 1); }
  }

  lemma {:induction false} AndZero(a: nat)
    ensures And(a, 0) == 0
  {
    if a > 0 { AndZero(a / 2); }
  }

  /** One bit of a mask at a time. */
  lemma {:induction false} AndStep(a: nat, b: nat)
    ensures And(a, b) == 2 * And(a / 2, b / 2) + (a % 2) * (b % 2)
  {
    if a == 0 {
      assert And(0, b / 2) == 0;
    }
  }

  /** Testing a word against `1 << k` reads bit k. */
  lemma {:induction false} MaskTestsBit(word: nat, k: nat)
    ensures (And(word, Pow2(k)) != 0) == Bit(word, k)
    decreases k
  {
    if word == 0 {
      ZeroHasNoBits(k);
    } else if k == 0 {
      AndZero(word / 2);
    } else {
      MaskTestsBit(word / 2, k - 1);
    }
  }

  lemma {:induction false} OrZero(a: nat)
    ensures Or(a, 0) == a
  {
    if a > 0 { OrZero(a / 2); }
  }

  lemma {:induction false} AndNotZero(a: nat)
    ensures AndNot(a, 0) == a
  {
    if a > 0 { AndNotZero(a / 2); }
  }

  lemma {:induction false} OrHalf(a: nat, b: nat)
    ensures Or(a, b) / 2 == Or(a / 2, b / 2)
    ensures Or(a, b) % 2 == if a % 2 == 1 || b % 2 == 1 then 1 else 0
  {
  }

  lemma {:induction false} AndNotHalf(a: nat, b: nat)
    ensures AndNot(a, b) / 2 == AndNot(a / 2, b / 2)
    ensures AndNot(a, b) % 2 == if b % 2 == 1 then 0 else a % 2
  {
  }

  /** Or-ing in `1 << k` sets bit k and leaves every other bit of the word alone. */
  lemma {:induction false} SetBit(word: nat, k: nat, j: nat)
    ensures Bit(Or(word, Pow2(k)), j) == (k == j || Bit(word, j))
    decreases k
  {
    if k == 0 {
      OrZero(word / 2);
      OrHalf(word, 1);
    } else {
      OrHalf(word, Pow2(k));
      if j > 0 { SetBit(word / 2, k - 1, j - 1); }
    }
  }

  /** And-ing with `!(1 << k)` clears bit k and leaves every other bit of the word alone. */
  lemma {:induction false} ClearBit(word: nat, k: nat, j: nat)
    ensures Bit(AndNot(word, Pow2(k)), j) == (k != j && Bit(word, j))
    decreases k
  {
    if word == 0 {
      ZeroHasNoBits(j);
    } else if k == 0 {
      AndNotZero(word / 2);
      AndNotHalf(word, 1);
    } else {
      AndNotHalf(word, Pow2(k));
      if j > 0 { ClearBit(word / 2, k - 1, j - 1); }
    }
  }

  /** Both updates keep a word inside its n bits. */
  lemma {:induction false} StaysInWord(word: nat, k: nat, n: nat)
    requires word < Pow2(n) && k < n
    ensures Or(word, Pow2(k)) < Pow2(n) && AndNot(word, Pow2(k)) < Pow2(n)
    decreases n
  {
    if k == 0 {
      OrZero(word / 2);
      AndNotZero(word / 2);
    } else {
      StaysInWord(word / 2, k - 1, n - 1);
    }
  }

  /** A word of n ones, as `write_bytes(.., 0xff, ..)` leaves it. */
  lemma {:induction false} AllOnes(n: nat, k: nat)
    requires k < n
    ensures Bit(Pow2(n) - 1, k)
  {
    if k > 0 {
      AllOnes(n - 1, k - 1);
      assert (Pow2(n) - 1) / 2 == Pow2(n - 1) - 1;
    }
  }

  /** A word is determined by its bits. */
  lemma {:induction false} SameBits(a: nat, b: nat, n: nat)
    requires a < Pow2(n) && b < Pow2(n)
    requires forall k: nat :: k < n ==> Bit(a, k) == Bit(b, k)
    ensures a == b
  {
    if n > 0 {
      assert Bit(a, 0) == Bit(b, 0);
      forall k: nat | k < n - 1
        ensures Bit(a / 2, k) == Bit(b / 2, k)
      {
        assert Bit(a, k + 1) == Bit(b, k + 1);
      }
      SameBits(a / 2, b / 2, n - 1);
    }
  }

  lemma {:induction false} HalfMultiple(a: nat, k: nat)
    requires k > 0 && a % Pow2(k) == 0
    ensures a % 2 == 0 && a / 2 % Pow2(k - 1) == 0
  {
    var q, p := a / Pow2(k), Pow2(k - 1);
    assert a == q * (2 * p);
    assert q * (2 * p) == 2 * (q * p);
    MultipleHasNoRemainder(q, p);
  }

  /** Or-ing values that share no bit position adds them. */
  lemma {:induction false} OrDisjoint(a: nat, b: nat, k: nat)
    requires a % Pow2(k) == 0 && b < Pow2(k)
    ensures Or(a, b) == a + b
    decreases k
  {
    if k == 0 {
      OrZero(a);
    } else {
      HalfMultiple(a, k);
      OrDisjoint(a / 2, b / 2, k - 1);
    }
  }
}
