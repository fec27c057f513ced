/** Bitwise and, or and single bits of natural numbers. */
module Bits {
  import opened Numerals

  function BitOr(a: nat, b: nat): nat {
    if a == 0 && b == 0 then 0 else 2 * BitOr(a / 2, b / 2) + Max(a % 2, b % 2)
  }

  function BitAnd(a: nat, b: nat): nat {
    if a == 0 || b == 0 then 0 else 2 * BitAnd(a / 2, b / 2) + Min(a % 2, b % 2)
  }

  /** Bit k, counted from the least significant. */
  predicate Bit(a: nat, k: nat) {
    if k == 0 then a % 2 == 1 else Bit(a / 2, k - 1)
  }

  lemma {:induction false} OrBit(a: nat, b: nat, k: nat)
    ensures Bit(BitOr(a, b), k) <==> Bit(a, k) || Bit(b, k)
    decreases k
  {
    if a == 0 && b == 0 {
      ZeroBit(k);
    } else {
      assert BitOr(a, b) / 2 == BitOr(a / 2, b / 2) && BitOr(a, b) % 2 == Max(a % 2, b % 2);
      if k > 0 { OrBit(a / 2, b / 2, k - 1); }
    }
  }

  lemma {:induction false} AndBit(a: nat, b: nat, k: nat)
    ensures Bit(BitAnd(a, b), k) <==> Bit(a, k) && Bit(b, k)
    decreases k
  {
    if a == 0 || b == 0 {
      ZeroBit(k);
    } else if k > 0 {
      AndBit(a / 2, b / 2, k - 1);
    }
  }

  lemma {:induction false} ZeroBit(k: nat)
    ensures !Bit(0, k)
  {
    if k == 0 {
    } else {
      ZeroBit(k - 1);
    }
  }

  lemma {:induction false} PowBit(j: nat, k: nat)
    ensures Bit(Pow(2, j), k) <==> j == k
  {
    if j == 0 {
      if k > 0 { ZeroBit(k - 1); }
    } else {
      assert Pow(2, j) / 2 == Pow(2, j - 1);
      if k > 0 { PowBit(j - 1, k - 1); }
    }
  }

  /** Numbers below 2^n with the same n bits are equal. */
  lemma {:induction false} SameBits(a: nat, b: nat, n: nat)
    requires a < Pow(2, n) && b < Pow(2, n)
    requires forall k: nat :: k < n ==> (Bit(a, k) <==> Bit(b, k))
    ensures a == b
  {
    if n == 0 {
    } else {
      forall k: nat | k < n - 1
        ensures Bit(a / 2, k) <==> Bit(b / 2, k)
      {
        assert Bit(a, k + 1) <==> Bit(b, k + 1);
      }
      SameBits(a / 2, b / 2, n - 1);
      assert Bit(a, 0) <==> Bit(b, 0);
      assert a == 2 * (a / 2) + a % 2 && b == 2 * (b / 2) + b % 2;
    }
  }

  lemma {:induction false} AndBelow(a: nat, b: nat, n: nat)
    requires a < Pow(2, n)
    ensures BitAnd(a, b) < Pow(2, n)
    decreases n
  {
    if n == 0 {
    } else {
      AndBelow(a / 2, b / 2, n - 1);
    }
  }

  /** The numbers agree on every bit of the mask below n. */
  ghost predicate AgreeOn(a: nat, b: nat, mask: nat, n: nat) {
    forall k: nat :: k < n && Bit(mask, k) ==> (Bit(a, k) <==> Bit(b, k))
  }

  /** Masked numbers are equal exactly when the numbers agree on the mask. */
  lemma MaskedEqual(a: nat, b: nat, mask: nat, n: nat)
    requires a < Pow(2, n) && b < Pow(2, n)
    ensures BitAnd(a, mask) == BitAnd(b, mask) <==> AgreeOn(a, b, mask, n)
  {
    var x, y := BitAnd(a, mask), BitAnd(b, mask);
    AndBelow(a, mask, n);
    AndBelow(b, mask, n);
    forall k: nat
      ensures Bit(x, k) <==> Bit(a, k) && Bit(mask, k)
      ensures Bit(y, k) <==> Bit(b, k) && Bit(mask, k)
    {
      AndBit(a, mask, k);
      AndBit(b, mask, k);
    }
    if AgreeOn(a, b, mask, n) {
      SameBits(x, y, n);
    } else {
      var k: nat :| k < n && Bit(mask, k) && Bit(a, k) != Bit(b, k);
      assert Bit(x, k) != Bit(y, k);
    }
  }

  lemma {:induction false} OrZero(a: nat)
    ensures BitOr(a, 0) == a
  {
    if a == 0 {
    } else {
      OrZero(a / 2);
    }
  }

  /** Or is addition when the low number fits below the multiple. */
  lemma {:induction false} OrAdds(m: nat, b: nat, k: nat)
    requires b < Pow(2, k)
    ensures BitOr(m * Pow(2, k), b) == m * Pow(2, k) + b
    decreases k
  {
    var a := m * Pow(2, k);
    if k == 0 {
      OrZero(a);
    } else {
      var h := m * Pow(2, k - 1);
      MulAssoc(m, 2, Pow(2, k - 1));
      assert a == 2 * h;
      OrAdds(m, b / 2, k - 1);
      if a == 0 && b == 0 {
      } else {
        assert BitOr(a, b) == 2 * BitOr(h, b / 2) + b % 2;
      }
    }
  }
}
