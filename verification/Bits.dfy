// Bitwise arithmetic on the unbounded naturals: the C operators `&`, `|`, `<<` and `>>` on
// unsigned words, and the facts that turn masks into low bits and disjoint ors into sums.
// Everything is defined one bit at a time, so that the proofs need only halving and doubling.
module Bits {

  function Pow2(n: nat): (r: nat)
    ensures r > 0
  {
    if n == 0 then 1 else 2 * Pow2(n - 1)
  }

  // C `a & b`
  function And(a: nat, b: nat): nat {
    if a == 0 || b == 0 then 0
    else (if a % 2 == 1 && b % 2 == 1 then 1 else 0) + 2 * And(a / 2, b / 2)
  }

  // C `a | b`
  function Or(a: nat, b: nat): nat {
    if a == 0 then b
    else if b == 0 then a
    else (if a % 2 == 1 || b % 2 == 1 then 1 else 0) + 2 * Or(a / 2, b / 2)
  }

  // C `a << n`, without truncation
  function Shl(a: nat, n: nat): nat {
    if n == 0 then a else 2 * Shl(a, n - 1)
  }

  // C `a >> n`
  function Shr(a: nat, n: nat): nat {
    if n == 0 then a else Shr(a / 2, n - 1)
  }

  // The low n bits of a.
  function Low(a: nat, n: nat): (r: nat)
    ensures r < Pow2(n)
  {
    if n == 0 then 0 else a % 2 + 2 * Low(a / 2, n - 1)
  }

  // ---------- powers of two ----------

  lemma Pow2Values()
    ensures Pow2(3) == 8 && Pow2(5) == 32 && Pow2(6) == 64 && Pow2(8) == 0x100
    ensures Pow2(16) == 0x1_0000
    ensures Pow2(24) == 0x100_0000
    ensures Pow2(29) == 0x2000_0000
    ensures Pow2(32) == 0x1_0000_0000
  {
    assert Pow2(12) == 0x1000;
    assert Pow2(20) == 0x10_0000;
    assert Pow2(28) == 0x1000_0000;
  }

  lemma {:induction false} Pow2Monotone(a: nat, b: nat)
    requires a <= b
    ensures Pow2(a) <= Pow2(b)
    ensures a < b ==> 2 * Pow2(a) <= Pow2(b)
  {
    if a < b {
      Pow2Monotone(a, b - 1);
    }
  }

  // ---------- shifting ----------

  // A word is its high part shifted up plus its low part.
  lemma {:induction false} ShiftParts(a: nat, n: nat)
    ensures a == Shl(Shr(a, n), n) + Low(a, n)
  {
    if n == 0 {
    } else {
      ShiftParts(a / 2, n - 1);
    }
  }

  lemma {:induction false} PartsUnique(h: nat, l: nat, n: nat)
    requires l < Pow2(n)
    ensures Shr(Shl(h, n) + l, n) == h
    ensures Low(Shl(h, n) + l, n) == l
  {
    if n == 0 {
    } else {
      PartsUnique(h, l / 2, n - 1);
    }
  }

  lemma {:induction false} ShlAdd(a: nat, b: nat, n: nat)
    ensures Shl(a + b, n) == Shl(a, n) + Shl(b, n)
  {
    if n == 0 {
    } else {
      ShlAdd(a, b, n - 1);
    }
  }

  lemma {:induction false} ShlShl(a: nat, m: nat, n: nat)
    ensures Shl(Shl(a, m), n) == Shl(a, m + n)
  {
    if n == 0 {
    } else {
      ShlShl(a, m, n - 1);
    }
  }

  lemma {:induction false} ShlPow2(m: nat, n: nat)
    ensures Shl(Pow2(m), n) == Pow2(m + n)
    ensures Shl(0, n) == 0
  {
    if n == 0 {
    } else {
      ShlPow2(m, n - 1);
    }
  }

  // Shifted words compare by their high parts.
  lemma {:induction false} ShlOrder(a: nat, b: nat, n: nat)
    requires a < b
    ensures Shl(a, n) + Pow2(n) <= Shl(b, n)
  {
    if n == 0 {
    } else {
      ShlOrder(a, b, n - 1);
    }
  }

  // A quotient and remainder are determined by the equation they satisfy.
  lemma DivModUnique(x: int, m: int, q: int, r: int)
    requires m > 0 && x == q * m + r && 0 <= r < m
    ensures x / m == q && x % m == r
  {
    var d := x / m - q;
    assert d * m == r - x % m;
    SmallMultiple(d, m);
  }

  lemma SmallMultiple(d: int, m: int)
    requires m > 0 && -m < d * m < m
    ensures d == 0
  {
    if d > 0 {
      MulAtLeast(d, m);
      assert false;
    } else if d < 0 {
      MulAtLeast(-d, m);
      assert false;
    }
  }

  lemma MulAtLeast(d: int, m: int)
    requires d >= 1 && m > 0
    ensures d * m >= m
  {
    assert d * m == (d - 1) * m + m;
  }

  // ---------- masks ----------

  // Masking with n ones keeps the low n bits.
  lemma {:induction false} AndMask(a: nat, n: nat)
    ensures And(a, Pow2(n) - 1) == Low(a, n)
  {
    if n == 0 {
    } else {
      AndMask(a / 2, n - 1);
      assert a == 0 ==> Low(0, n - 1) == 0;
    }
  }

  // Words without a common one bit: or is addition.
  lemma {:induction false} OrDisjoint(h: nat, l: nat, n: nat)
    requires l < Pow2(n)
    ensures Or(Shl(h, n), l) == Shl(h, n) + l
    ensures Or(l, Shl(h, n)) == Shl(h, n) + l
  {
    if n == 0 {
    } else {
      OrDisjoint(h, l / 2, n - 1);
    }
  }
}
