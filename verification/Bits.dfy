/** Single bits of natural numbers, and what the bitwise operations do to them. */
module Bits {
  import opened MachineWords
  import opened Probing

  predicate HasBit(bits: nat, i: nat)
    decreases i
  {
    if i == 0 then bits % 2 == 1 else HasBit(bits / 2, i - 1)
  }

  lemma {:induction false} HalvesAgain(x: nat, n: nat)
    requires n > 0
    ensures x / (2 * n) == x / 2 / n
  {
    var q, r := x / 2 / n, x / 2 % n;
    assert x / 2 == q * n + r;
    assert x == q * (2 * n) + (2 * r + x % 2);
    ModuloUnique(x, 2 * n, q, 2 * r + x % 2);
  }

  /** Bit `i` is the binary digit of weight `2^i`. */
  lemma {:induction false} BitIsDigit(bits: nat, i: nat)
    ensures HasBit(bits, i) <==> bits / Pow2(i) % 2 == 1
    decreases i
  {
    if i > 0 {
      BitIsDigit(bits / 2, i - 1);
      HalvesAgain(bits, Pow2(i - 1));
    }
  }

  lemma {:induction false} NoBits(j: nat)
    ensures !HasBit(0, j)
  {
    if j > 0 {
      NoBits(j - 1);
    }
  }

  /** A number other than zero has a bit. */
  lemma {:induction false} SomeBit(n: nat) returns (j: nat)
    requires n != 0
    ensures HasBit(n, j)
  {
    if n % 2 == 1 {
      j := 0;
    } else {
      var k := SomeBit(n / 2);
      j := k + 1;
    }
  }

  /** The conjunction has a bit exactly when both numbers have it. */
  lemma {:induction false} AndBits(x: nat, y: nat, j: nat)
    ensures HasBit(BitAnd(x, y), j) <==> HasBit(x, j) && HasBit(y, j)
    decreases j
  {
    if x == 0 || y == 0 {
      NoBits(j);
    } else if j > 0 {
      AndBits(x / 2, y / 2, j - 1);
    }
  }

  /** The exclusive disjunction has a bit exactly when one of the numbers has it. */
  lemma {:induction false} XorBits(x: nat, y: nat, j: nat)
    ensures HasBit(BitXor(x, y), j) <==> HasBit(x, j) != HasBit(y, j)
    decreases j
  {
    if x == 0 && y == 0 {
      NoBits(j);
    } else if j > 0 {
      XorBits(x / 2, y / 2, j - 1);
    }
  }

  /** A shifted number has the bits of the number above the shift. */
  lemma {:induction false} ShiftedBits(x: nat, k: nat, j: nat)
    ensures HasBit(ShiftRight(x, k), j) <==> HasBit(x, j + k)
    decreases k
  {
    if k > 0 {
      ShiftedBits(x / 2, k - 1, j);
    }
  }

  lemma {:induction false} PowerHasOneBit(i: nat, j: nat)
    ensures HasBit(Pow2(i), j) <==> j == i
    decreases i
  {
    if i == 0 {
      if j > 0 {
        NoBits(j - 1);
      }
    } else if j > 0 {
      PowerHasOneBit(i - 1, j - 1);
    }
  }

  lemma SharedBit(x: nat, y: nat, j: nat)
    requires HasBit(x, j) && HasBit(y, j)
    ensures BitAnd(x, y) != 0
  {
    AndBits(x, y, j);
    NoBits(j);
  }

  /** Two numbers share a bit exactly when their conjunction is not zero. */
  lemma CommonBit(x: nat, y: nat)
    ensures BitAnd(x, y) != 0 <==> exists j :: HasBit(x, j) && HasBit(y, j)
  {
    if BitAnd(x, y) != 0 {
      var j := SomeBit(BitAnd(x, y));
      AndBits(x, y, j);
    }
    if j :| HasBit(x, j) && HasBit(y, j) {
      SharedBit(x, y, j);
    }
  }

  /** Masking with `1 << i` tests bit `i`. */
  lemma MaskTestsBit(x: nat, i: nat)
    ensures BitAnd(x, Pow2(i)) != 0 <==> HasBit(x, i)
  {
    CommonBit(x, Pow2(i));
    PowerHasOneBit(i, i);
    if j :| HasBit(x, j) && HasBit(Pow2(i), j) {
      PowerHasOneBit(i, j);
    }
  }
}
