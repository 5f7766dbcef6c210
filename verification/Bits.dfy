/** Bitwise operations on unbounded non-negative integers, and the bits behind them. */
module Bits {

  /** Bit i of a word, counting from the least significant. */
  predicate Bit(w: nat, i: nat) {
    if i == 0 then w % 2 == 1 else Bit(w / 2, i - 1)
  }

  function Shl(w: nat, n: nat): nat {
    if n == 0 then w else 2 * Shl(w, n - 1)
  }

  function Shr(w: nat, n: nat): nat {
    if n == 0 then w else Shr(w / 2, n - 1)
  }

  function And(a: nat, b: nat): nat {
    if a == 0 || b == 0 then 0
    else 2 * And(a / 2, b / 2) + if a % 2 == 1 && b % 2 == 1 then 1 else 0
  }

  function Or(a: nat, b: nat): nat {
    if a == 0 then b
    else 2 * Or(a / 2, b / 2) + if a % 2 == 1 || b % 2 == 1 then 1 else 0
  }

  /** The bits of the first word that are not in the second. */
  function AndNot(a: nat, b: nat): nat {
    if a == 0 then 0
    else 2 * AndNot(a / 2, b / 2) + if a % 2 == 1 && b % 2 == 0 then 1 else 0
  }

  lemma {:induction false} ShlAdd(m: nat, n: nat)
    ensures Shl(1, m + n) == Shl(1, m) * Shl(1, n)
    decreases n
  {
    if n > 0 {
      ShlAdd(m, n - 1);
      assert Shl(1, m) * (2 * Shl(1, n - 1)) == 2 * (Shl(1, m) * Shl(1, n - 1));
    }
  }

  lemma {:induction false} BitZero(i: nat)
    ensures !Bit(0, i)
  {
    if i > 0 {
      BitZero(i - 1);
    }
  }

  lemma {:induction false} BitShl(w: nat, n: nat, i: nat)
    ensures Bit(Shl(w, n), i) <==> i >= n && Bit(w, i - n)
    decreases n
  {
    if n > 0 && i > 0 {
      assert Shl(w, n) / 2 == Shl(w, n - 1);
      BitShl(w, n - 1, i - 1);
    }
  }

  lemma {:induction false} BitShr(w: nat, n: nat, i: nat)
    ensures Bit(Shr(w, n), i) <==> Bit(w, n + i)
    decreases n
  {
    if n > 0 {
      BitShr(w / 2, n - 1, i);
    }
  }

  lemma {:induction false} BitMask(n: nat, i: nat)
    ensures Shl(1, n) >= 1
    ensures Bit(Shl(1, n) - 1, i) <==> i < n
    decreases n
  {
    if n == 0 {
      BitZero(i);
    } else if i > 0 {
      BitMask(n - 1, i - 1);
      assert (Shl(1, n) - 1) / 2 == Shl(1, n - 1) - 1;
    } else {
      BitMask(n - 1, 0);
    }
  }

  lemma {:induction false} BitAnd(a: nat, b: nat, i: nat)
    ensures Bit(And(a, b), i) <==> Bit(a, i) && Bit(b, i)
    decreases i
  {
    if a == 0 || b == 0 {
      BitZero(i);
    } else if i > 0 {
      assert And(a, b) / 2 == And(a / 2, b / 2);
      BitAnd(a / 2, b / 2, i - 1);
    }
  }

  lemma {:induction false} BitOr(a: nat, b: nat, i: nat)
    ensures Bit(Or(a, b), i) <==> Bit(a, i) || Bit(b, i)
    decreases i
  {
    if a == 0 {
      BitZero(i);
    } else if i > 0 {
      assert Or(a, b) / 2 == Or(a / 2, b / 2);
      BitOr(a / 2, b / 2, i - 1);
    }
  }

  lemma {:induction false} BitAndNot(a: nat, b: nat, i: nat)
    ensures Bit(AndNot(a, b), i) <==> Bit(a, i) && !Bit(b, i)
    decreases i
  {
    if a == 0 {
      BitZero(i);
    } else if i > 0 {
      assert AndNot(a, b) / 2 == AndNot(a / 2, b / 2);
      BitAndNot(a / 2, b / 2, i - 1);
    }
  }

  /** A word is its bits. */
  lemma {:induction false} SameBits(a: nat, b: nat)
    requires forall i: nat :: Bit(a, i) <==> Bit(b, i)
    ensures a == b
    decreases a + b
  {
    assert Bit(a, 0) <==> Bit(b, 0);
    if a + b > 0 {
      forall i: nat ensures Bit(a / 2, i) <==> Bit(b / 2, i) {
        assert Bit(a, i + 1) <==> Bit(b, i + 1);
      }
      SameBits(a / 2, b / 2);
    }
  }

  /** No bit at or above position n. */
  ghost predicate NoneAbove(w: nat, n: nat) {
    forall i: nat :: i >= n ==> !Bit(w, i)
  }

  lemma NoneAboveHalf(w: nat, n: nat)
    requires n > 0
    ensures NoneAbove(w, n) <==> NoneAbove(w / 2, n - 1)
  {
    if NoneAbove(w, n) {
      forall i: nat | i >= n - 1 ensures !Bit(w / 2, i) {
        assert !Bit(w, i + 1);
      }
    }
    if NoneAbove(w / 2, n - 1) {
      forall i: nat | i >= n ensures !Bit(w, i) {
        assert !Bit(w / 2, i - 1);
      }
    }
  }

  /** A word fits in n bits exactly if it has none above them. */
  lemma {:induction false} BelowExactly(w: nat, n: nat)
    ensures w < Shl(1, n) <==> NoneAbove(w, n)
    decreases n
  {
    if n > 0 {
      BelowExactly(w / 2, n - 1);
      NoneAboveHalf(w, n);
    } else if w == 0 {
      forall i: nat ensures !Bit(w, i) {
        BitZero(i);
      }
    } else if NoneAbove(w, 0) {
      forall i: nat ensures Bit(w, i) <==> Bit(0, i) {
        BitZero(i);
      }
      SameBits(w, 0);
    }
  }
}
