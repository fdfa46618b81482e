/**
 * Unsigned signature words as natural numbers. The C operators `&`, `|`, `^`
 * and `0x01 << k` are defined on binary digits, so every fact about them is a
 * short induction on digits.
 */
module SignWord {

  predicate Bit(w: nat, k: nat) {
    if k == 0 then w % 2 == 1 else Bit(w / 2, k - 1)
  }

  function And(a: nat, b: nat): nat {
    if a == 0 || b == 0 then 0
    else (if a % 2 == 1 && b % 2 == 1 then 1 else 0) + 2 * And(a / 2, b / 2)
  }

  function Or(a: nat, b: nat): nat {
    if a == 0 then b
    else if b == 0 then a
    else (if a % 2 == 1 || b % 2 == 1 then 1 else 0) + 2 * Or(a / 2, b / 2)
  }

  function Xor(a: nat, b: nat): nat {
    if a == 0 then b
    else if b == 0 then a
    else (if a % 2 != b % 2 then 1 else 0) + 2 * Xor(a / 2, b / 2)
  }

  function Mask(k: nat): nat {
    if k == 0 then 1 else 2 * Mask(k - 1)
  }

  lemma WordWidths()
    ensures Mask(16) == 0x1_0000
    ensures Mask(32) == 0x1_0000_0000
  {
    MaskAdd(4, 4);
    MaskAdd(8, 8);
    MaskAdd(16, 16);
  }

  lemma {:induction false} MaskAdd(m: nat, n: nat)
    ensures Mask(m + n) == Mask(m) * Mask(n)
  {
    if n == 0 {
    } else {
      MaskAdd(m, n - 1);
    }
  }

  /** Bit k is the k-th binary digit. */
  lemma {:induction false} BitIsDigit(w: nat, k: nat)
    ensures Mask(k) > 0 && (Bit(w, k) <==> w / Mask(k) % 2 == 1)
  {
    if k == 0 {
    } else {
      BitIsDigit(w / 2, k - 1);
      HalfDivides(w, Mask(k - 1));
    }
  }

  lemma HalfDivides(w: nat, m: nat)
    requires m > 0
    ensures w / 2 / m == w / (2 * m)
  {
    var q := w / 2 / m;
    assert w == 2 * (w / 2) + w % 2 && w / 2 == m * q + w / 2 % m;
    assert w == 2 * m * q + (2 * (w / 2 % m) + w % 2);
    QuotientUnique(w, 2 * m, q, 2 * (w / 2 % m) + w % 2);
  }

  lemma QuotientUnique(w: nat, m: nat, q: nat, r: nat)
    requires m > 0 && w == m * q + r && r < m
    ensures w / m == q
  {
    var d := w / m - q;
    assert m * d == r - w % m;
    assert 0 - m < m * d < m;
  }

  lemma {:induction false} ZeroHasNoBit(k: nat)
    ensures !Bit(0, k)
  {
    if k == 0 {
    } else {
      ZeroHasNoBit(k - 1);
    }
  }

  lemma {:induction false} AndBit(a: nat, b: nat, k: nat)
    ensures Bit(And(a, b), k) <==> Bit(a, k) && Bit(b, k)
  {
    if a == 0 || b == 0 {
      ZeroHasNoBit(k);
    } else if k > 0 {
      AndBit(a / 2, b / 2, k - 1);
      assert And(a, b) / 2 == And(a / 2, b / 2);
    }
  }

  lemma OrHalf(a: nat, b: nat)
    ensures Or(a, b) / 2 == Or(a / 2, b / 2) && (Or(a, b) % 2 == 1 <==> a % 2 == 1 || b % 2 == 1)
  {
  }

  lemma {:induction false} OrBit(a: nat, b: nat, k: nat)
    ensures Bit(Or(a, b), k) <==> Bit(a, k) || Bit(b, k)
  {
    OrHalf(a, b);
    if k == 0 {
    } else {
      OrBit(a / 2, b / 2, k - 1);
    }
  }

  lemma {:induction false} MaskBit(k: nat, j: nat)
    ensures Bit(Mask(k), j) <==> j == k
  {
    if k > 0 && j > 0 {
      MaskBit(k - 1, j - 1);
      assert Mask(k) / 2 == Mask(k - 1);
    } else if j > 0 {
      ZeroHasNoBit(j - 1);
    }
  }

  lemma {:induction false} SetBit(w: nat, k: nat, j: nat)
    ensures Bit(Or(w, Mask(k)), j) <==> Bit(w, j) || j == k
  {
    OrBit(w, Mask(k), j);
    MaskBit(k, j);
  }

  lemma {:induction false} BitsDetermine(a: nat, b: nat)
    requires forall k: nat :: Bit(a, k) == Bit(b, k)
    ensures a == b
    decreases a + b
  {
    assert Bit(a, 0) == Bit(b, 0);
    forall k: nat
      ensures Bit(a / 2, k) == Bit(b / 2, k)
    {
      assert Bit(a, k + 1) == Bit(b, k + 1);
    }
    if a + b == 0 {
    } else {
      BitsDetermine(a / 2, b / 2);
    }
  }

  lemma {:induction false} HighBitsClear(w: nat, n: nat, k: nat)
    requires w < Mask(n) && n <= k
    ensures !Bit(w, k)
  {
    if n == 0 {
      ZeroHasNoBit(k);
    } else {
      HighBitsClear(w / 2, n - 1, k - 1);
    }
  }

  lemma {:induction false} OrBelow(a: nat, b: nat, n: nat)
    requires a < Mask(n) && b < Mask(n)
    ensures Or(a, b) < Mask(n)
  {
    if a == 0 || b == 0 || n == 0 {
    } else {
      OrBelow(a / 2, b / 2, n - 1);
    }
  }

  lemma {:induction false} XorBelow(a: nat, b: nat, n: nat)
    requires a < Mask(n) && b < Mask(n)
    ensures Xor(a, b) < Mask(n)
  {
    if a == 0 || b == 0 || n == 0 {
    } else {
      XorBelow(a / 2, b / 2, n - 1);
    }
  }

  lemma XorHalf(a: nat, b: nat)
    ensures Xor(a, b) / 2 == Xor(a / 2, b / 2) && Xor(a, b) % 2 == if a % 2 != b % 2 then 1 else 0
  {
  }

  lemma {:induction false} XorBit(a: nat, b: nat, k: nat)
    ensures Bit(Xor(a, b), k) <==> Bit(a, k) != Bit(b, k)
  {
    XorHalf(a, b);
    if k == 0 {
    } else {
      XorBit(a / 2, b / 2, k - 1);
    }
  }

  lemma {:induction false} XorUndone(a: nat, b: nat)
    ensures Xor(Xor(a, b), b) == a
    decreases a + b
  {
    if a == 0 && b == 0 {
    } else {
      hide Xor;
      XorHalf(a, b);
      XorHalf(Xor(a, b), b);
      XorUndone(a / 2, b / 2);
    }
  }

  lemma {:induction false} MaskMonotone(k: nat, n: nat)
    requires k < n
    ensures Mask(k) < Mask(n)
  {
    if k > 0 {
      MaskMonotone(k - 1, n - 1);
    } else if n > 1 {
      MaskMonotone(0, n - 1);
    }
  }

  ghost predicate Includes(a: nat, b: nat) {
    forall k: nat :: Bit(b, k) ==> Bit(a, k)
  }

  /** The masked comparison holds exactly when every bit of b is a bit of a. */
  lemma {:induction false} IncludesIff(a: nat, b: nat)
    ensures And(a, b) == b <==> Includes(a, b)
  {
    if And(a, b) == b {
      forall k: nat | Bit(b, k)
        ensures Bit(a, k)
      {
        AndBit(a, b, k);
      }
    }
    if Includes(a, b) {
      forall k: nat
        ensures Bit(And(a, b), k) == Bit(b, k)
      {
        AndBit(a, b, k);
      }
      BitsDetermine(And(a, b), b);
    }
  }
}
