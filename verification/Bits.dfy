/** Unsigned machine operators on natural numbers: masks, shifts and single bits.
    `And`, `Or`, `Shl` and `Shr` are defined bit by bit; the lemmas connect them to
    the arithmetic (`%`, `/`, `+`) that the C code relies on. */
module Bits {
  type Byte = b: nat | b < 256

  function Pow2(k: nat): (r: nat)
    ensures r > 0
  {
    if k == 0 then 1 else 2 * Pow2(k - 1)
  }

  /** Bit `i` of `a`. */
  predicate Bit(a: nat, i: nat) {
    if i == 0 then a % 2 == 1 else Bit(a / 2, i - 1)
  }

  function And(a: nat, b: nat): nat {
    if a == 0 || b == 0 then 0 else 2 * And(a / 2, b / 2) + (a % 2) * (b % 2)
  }

  function Or(a: nat, b: nat): nat
    decreases a + b
  {
    if a == 0 then b else if b == 0 then a
    else 2 * Or(a / 2, b / 2) + (if a % 2 == 1 || b % 2 == 1 then 1 else 0)
  }

  function Shl(a: nat, k: nat): nat
    decreases k
  {
    if k == 0 then a else Shl(2 * a, k - 1)
  }

  function Shr(a: nat, k: nat): nat
    decreases k
  {
    if k == 0 then a else Shr(a / 2, k - 1)
  }

  // ---------------------------------------------------------------- arithmetic meaning

  lemma {:induction false} ModDouble(h: nat, n: nat)
    requires n > 0
    ensures h % (2 * n) == 2 * ((h / 2) % n) + h % 2
  {
    var q, r := (h / 2) / n, (h / 2) % n;
    assert h == 2 * (n * q + r) + h % 2;
    assert 2 * (n * q) == (2 * n) * q;
    ModUnique(h, 2 * n, q, 2 * r + h % 2);
  }

  function Quotient(a: nat, b: nat): nat
    requires b > 0
  {
    a / b
  }

  function Remainder(a: nat, b: nat): (r: nat)
    requires b > 0
    ensures r < b
  {
    a % b
  }

  lemma DivisionIdentity(a: nat, b: nat)
    requires b > 0
    ensures a == b * Quotient(a, b) + Remainder(a, b)
  {
  }

  lemma MulGap(n: int, d: int)
    requires n >= 0
    ensures d >= 1 ==> n * d >= n
    ensures d <= -1 ==> n * d <= -n
  {
  }

  lemma ModUnique(h: nat, n: nat, q: nat, r: nat)
    requires n > 0 && r < n && h == n * q + r
    ensures h % n == r && h / n == q
  {
    var d := h / n - q;
    assert n * (h / n) + h % n == h;
    assert n * d == r - h % n by {
      assert n * (h / n - q) == n * (h / n) - n * q;
    }
    MulGap(n, d);
  }

  lemma DivDouble(a: nat, n: nat)
    requires n > 0
    ensures a / (2 * n) == (a / 2) / n
  {
    var q, r := (a / 2) / n, (a / 2) % n;
    assert a == 2 * (n * q + r) + a % 2;
    assert 2 * (n * q) == (2 * n) * q;
    ModUnique(a, 2 * n, q, 2 * r + a % 2);
  }

  /** Masking with a power of two minus one is the remainder by that power. */
  lemma {:induction false} AndMaskIsMod(h: nat, k: nat)
    ensures And(h, Pow2(k) - 1) == h % Pow2(k)
  {
    if k == 0 {
    } else {
      var n := Pow2(k - 1);
      AndMaskIsMod(h / 2, k - 1);
      ModDouble(h, n);
      assert (2 * n - 1) / 2 == n - 1 && (2 * n - 1) % 2 == 1;
    }
  }

  lemma {:induction false} ShrIsDiv(a: nat, k: nat)
    ensures Shr(a, k) == a / Pow2(k)
  {
    if k == 0 {
    } else {
      ShrIsDiv(a / 2, k - 1);
      DivDouble(a, Pow2(k - 1));
    }
  }

  lemma {:induction false} ShlIsMul(a: nat, k: nat)
    ensures Shl(a, k) == a * Pow2(k)
    decreases k
  {
    if k == 0 {
    } else {
      ShlIsMul(2 * a, k - 1);
      assert (2 * a) * Pow2(k - 1) == a * (2 * Pow2(k - 1));
    }
  }

  // ---------------------------------------------------------------- single bits

  lemma {:induction false} ZeroHasNoBits(i: nat)
    ensures !Bit(0, i)
  {
    if i > 0 {
      ZeroHasNoBits(i - 1);
    }
  }

  lemma {:induction false} Pow2Bit(j: nat, i: nat)
    ensures Bit(Pow2(j), i) <==> i == j
  {
    if i == 0 || j == 0 {
      if i > 0 {
        assert Pow2(0) / 2 == 0;
        ZeroHasNoBits(i - 1);
      }
    } else {
      Pow2Bit(j - 1, i - 1);
    }
  }

  lemma OrHalf(a: nat, b: nat)
    ensures Or(a, b) / 2 == Or(a / 2, b / 2)
  {
  }

  lemma BitHalf(a: nat, i: nat)
    requires i > 0
    ensures Bit(a, i) == Bit(a / 2, i - 1)
  {
  }

  lemma OrOdd(a: nat, b: nat)
    ensures Or(a, b) % 2 == 1 <==> a % 2 == 1 || b % 2 == 1
  {
  }

  lemma {:induction false} OrBit(a: nat, b: nat, i: nat)
    ensures Bit(Or(a, b), i) <==> Bit(a, i) || Bit(b, i)
    decreases i
  {
    if i == 0 {
      OrOdd(a, b);
    } else {
      OrBit(a / 2, b / 2, i - 1);
      OrHalf(a, b);
      BitHalf(Or(a, b), i);
      BitHalf(a, i);
      BitHalf(b, i);
    }
  }

  /** The mask test of a C bit vector: non-zero exactly when the bit is set. */
  lemma {:induction false} AndPow2IsBit(a: nat, j: nat)
    ensures And(a, Pow2(j)) != 0 <==> Bit(a, j)
  {
    if a == 0 {
      ZeroHasNoBits(j);
    } else if j == 0 {
      assert And(a / 2, 0) == 0;
    } else {
      AndPow2IsBit(a / 2, j - 1);
      assert Pow2(j) / 2 == Pow2(j - 1) && Pow2(j) % 2 == 0;
    }
  }

  lemma {:induction false} OrStaysBelow(a: nat, b: nat, k: nat)
    requires a < Pow2(k) && b < Pow2(k)
    ensures Or(a, b) < Pow2(k)
  {
    if a != 0 && b != 0 && k > 0 {
      OrStaysBelow(a / 2, b / 2, k - 1);
    }
  }

  /** Or-ing a value shifted above all bits of `a` is addition: nothing overlaps. */
  lemma {:induction false} OrDisjointIsAdd(a: nat, v: nat, k: nat)
    requires a < Pow2(k)
    ensures Or(a, v * Pow2(k)) == a + v * Pow2(k)
  {
    if a == 0 || v == 0 {
    } else {
      var m := Pow2(k - 1);
      var b := v * Pow2(k);
      assert b == 2 * (v * m) by {
        assert v * (2 * m) == 2 * (v * m);
      }
      OrDisjointIsAdd(a / 2, v, k - 1);
      MulGap(m, v);
      assert b / 2 == v * m && b % 2 == 0;
    }
  }

  lemma {:induction false} Pow2Add(j: nat, k: nat)
    ensures Pow2(j + k) == Pow2(j) * Pow2(k)
  {
    if j > 0 {
      Pow2Add(j - 1, k);
      DoubleProduct(Pow2(j - 1), Pow2(k));
    }
  }

  lemma DoubleProduct(a: nat, b: nat)
    ensures 2 * (a * b) == (2 * a) * b
  {
  }

  lemma {:induction false} Pow2Monotone(j: nat, k: nat)
    requires j <= k
    ensures Pow2(j) <= Pow2(k)
  {
    if j < k {
      Pow2Monotone(j, k - 1);
    }
  }
}
