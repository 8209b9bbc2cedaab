/** Machine words as natural numbers, and their bits. */
module Bits {

  function Pow2(n: nat): (r: nat)
    ensures r > 0
  {
    if n == 0 then 1 else 2 * Pow2(n - 1)
  }

  /** Bit i of w. */
  predicate Has(w: nat, i: nat) {
    if i == 0 then w % 2 == 1 else Has(w / 2, i - 1)
  }

  function Or(a: nat, b: nat): nat {
    if a == 0 && b == 0 then 0
    else 2 * Or(a / 2, b / 2) + if a % 2 == 1 || b % 2 == 1 then 1 else 0
  }

  /** a & ~b */
  function AndNot(a: nat, b: nat): nat {
    if a == 0 then 0
    else 2 * AndNot(a / 2, b / 2) + if a % 2 == 1 && b % 2 == 0 then 1 else 0
  }

  lemma {:induction false} ZeroHasNone(i: nat)
    ensures !Has(0, i)
  {
    if i > 0 { ZeroHasNone(i - 1); }
  }

  lemma {:induction false} OrHas(a: nat, b: nat, i: nat)
    ensures Has(Or(a, b), i) <==> Has(a, i) || Has(b, i)
    decreases i
  {
    if a == 0 && b == 0 {
      ZeroHasNone(i);
    } else if i > 0 {
      assert Or(a, b) / 2 == Or(a / 2, b / 2);
      OrHas(a / 2, b / 2, i - 1);
    }
  }

  lemma {:induction false} AndNotHas(a: nat, b: nat, i: nat)
    ensures Has(AndNot(a, b), i) <==> Has(a, i) && !Has(b, i)
    decreases i
  {
    if a == 0 {
      ZeroHasNone(i);
    } else if i > 0 {
      assert AndNot(a, b) / 2 == AndNot(a / 2, b / 2);
      AndNotHas(a / 2, b / 2, i - 1);
    }
  }

  lemma {:induction false} Pow2Has(n: nat, i: nat)
    ensures Has(Pow2(n), i) <==> i == n
  {
    if n == 0 {
      if i > 0 { ZeroHasNone(i - 1); }
    } else if i > 0 {
      Pow2Has(n - 1, i - 1);
    }
  }

  lemma {:induction false} OrBounded(a: nat, b: nat, n: nat)
    requires a < Pow2(n) && b < Pow2(n)
    ensures Or(a, b) < Pow2(n)
  {
    if n > 0 && (a > 0 || b > 0) { OrBounded(a / 2, b / 2, n - 1); }
  }

  lemma {:induction false} AndNotBounded(a: nat, b: nat)
    ensures AndNot(a, b) <= a
  {
    if a > 0 { AndNotBounded(a / 2, b / 2); }
  }

  lemma {:induction false} Pow2Monotone(a: nat, b: nat)
    requires a < b
    ensures Pow2(a) < Pow2(b)
  {
    if a + 1 < b { Pow2Monotone(a, b - 1); }
  }

  /** Bits at and above the width of a word are clear. */
  lemma {:induction false} HighBitsClear(w: nat, n: nat, i: nat)
    requires w < Pow2(n) && n <= i
    ensures !Has(w, i)
  {
    if n == 0 {
      ZeroHasNone(i);
    } else {
      HighBitsClear(w / 2, n - 1, i - 1);
    }
  }

  /** pow2(n) - 1 is n ones. */
  lemma {:induction false} OnesHas(n: nat, i: nat)
    ensures Has(Pow2(n) - 1, i) <==> i < n
  {
    if n == 0 {
      ZeroHasNone(i);
    } else if i > 0 {
      assert (Pow2(n) - 1) / 2 == Pow2(n - 1) - 1;
      OnesHas(n - 1, i - 1);
    }
  }

  lemma Pow2Values()
    ensures Pow2(16) == 0x1_0000 && Pow2(32) == 0x1_0000_0000 && Pow2(64) == 0x1_0000_0000_0000_0000
  {
    assert Pow2(4) == 16;
    Pow2Sum(4, 4);
    Pow2Sum(8, 8);
    Pow2Sum(16, 16);
    Pow2Sum(32, 32);
  }

  lemma {:induction false} Pow2Sum(a: nat, b: nat)
    ensures Pow2(a + b) == Pow2(a) * Pow2(b)
  {
    if b > 0 { Pow2Sum(a, b - 1); }
  }

  /** w >> n */
  function Shr(w: nat, n: nat): nat {
    if n == 0 then w else Shr(w / 2, n - 1)
  }

  /** The low n bits of w. */
  function Low(w: nat, n: nat): nat {
    if n == 0 then 0 else 2 * Low(w / 2, n - 1) + w % 2
  }

  lemma {:induction false} LowHas(w: nat, n: nat, i: nat)
    ensures Has(Low(w, n), i) <==> i < n && Has(w, i)
  {
    if n == 0 {
      ZeroHasNone(i);
    } else if i > 0 {
      LowHas(w / 2, n - 1, i - 1);
    }
  }

  lemma {:induction false} ShrHas(w: nat, n: nat, i: nat)
    ensures Has(Shr(w, n), i) <==> Has(w, n + i)
  {
    if n > 0 { ShrHas(w / 2, n - 1, i); }
  }

  /** Low and Shr take a word apart. */
  lemma {:induction false} LowShr(w: nat, n: nat)
    ensures Low(w, n) < Pow2(n) && w == Low(w, n) + Pow2(n) * Shr(w, n)
  {
    if n > 0 {
      LowShr(w / 2, n - 1);
      DoubleProduct(Pow2(n - 1), Shr(w, n));
    }
  }

  lemma DoubleProduct(p: nat, x: nat)
    ensures 2 * (p * x) == (2 * p) * x
  {
  }
}
