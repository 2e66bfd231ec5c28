/** Bitwise operators of the C and Zig sources on unsigned words, read as natural numbers. */
module Bits {

  const U64: nat := 0x1_0000_0000_0000_0000

  /** 1 << k */
  function Pow2(k: nat): (r: nat)
    ensures r > 0
  {
    if k == 0 then 1 else 2 * Pow2(k - 1)
  }

  /** Bit k of w, counted from the least significant one. */
  predicate Bit(w: nat, k: nat)
  {
    if k == 0 then w % 2 == 1 else Bit(w / 2, k - 1)
  }

  /** a | b */
  function Or(a: nat, b: nat): nat
    decreases a + b
  {
    if a == 0 && b == 0 then 0
    else 2 * Or(a / 2, b / 2) + (if a % 2 == 1 || b % 2 == 1 then 1 else 0)
  }

  /** a & ~b */
  function AndNot(a: nat, b: nat): nat
    decreases a
  {
    if a == 0 then 0 else 2 * AndNot(a / 2, b / 2) + (if a % 2 == 1 && b % 2 == 0 then 1 else 0)
  }

  lemma {:induction false} OrBit(a: nat, b: nat, k: nat)
    ensures Bit(Or(a, b), k) == (Bit(a, k) || Bit(b, k))
    decreases k
  {
    assert Or(a, b) % 2 == 1 <==> a % 2 == 1 || b % 2 == 1;
    assert Or(a, b) / 2 == Or(a / 2, b / 2);
    if k == 0 {
    } else {
      OrBit(a / 2, b / 2, k - 1);
    }
  }

  lemma {:induction false} AndNotBit(a: nat, b: nat, k: nat)
    ensures Bit(AndNot(a, b), k) == (Bit(a, k) && !Bit(b, k))
    decreases k
  {
    assert AndNot(a, b) % 2 == 1 <==> a % 2 == 1 && b % 2 == 0;
    assert AndNot(a, b) / 2 == AndNot(a / 2, b / 2);
    if k == 0 {
    } else {
      AndNotBit(a / 2, b / 2, k - 1);
    }
  }

  lemma {:induction false} ZeroBits(k: nat)
    ensures !Bit(0, k)
  {
    if k == 0 {
    } else {
      ZeroBits(k - 1);
    }
  }

  lemma {:induction false} Pow2Bit(k: nat, j: nat)
    ensures Bit(Pow2(k), j) == (j == k)
    decreases j
  {
    if k == 0 {
      if j > 0 {
        ZeroBits(j - 1);
      }
    } else if j > 0 {
      assert Pow2(k) / 2 == Pow2(k - 1);
      Pow2Bit(k - 1, j - 1);
    }
  }

  /** Two words below 2^k are combined to a word below 2^k. */
  lemma {:induction false} OrBelow(a: nat, b: nat, k: nat)
    requires a < Pow2(k) && b < Pow2(k)
    ensures Or(a, b) < Pow2(k)
    decreases k
  {
    if k == 0 {
    } else {
      OrBelow(a / 2, b / 2, k - 1);
    }
  }

  lemma {:induction false} AndNotBelow(a: nat, b: nat)
    ensures AndNot(a, b) <= a
    decreases a
  {
    if a == 0 {
    } else {
      AndNotBelow(a / 2, b / 2);
    }
  }

  /** w >> k */
  function Shr(w: nat, k: nat): nat
  {
    if k == 0 then w else Shr(w / 2, k - 1)
  }

  /** w & ((1 << k) - 1) */
  function Low(w: nat, k: nat): nat
  {
    if k == 0 then 0 else 2 * Low(w / 2, k - 1) + w % 2
  }

  lemma {:induction false} MulGap(p: nat, q: nat, d: nat)
    requires p > q
    ensures p * d >= q * d + d
  {
    var gap := p - q - 1;
    assert gap * d >= 0;
    assert p * d == (q + 1 + gap) * d == q * d + d + gap * d;
  }

  lemma DivModUnique(x: nat, d: nat, q: nat, r: nat)
    requires d > 0 && x == q * d + r && r < d
    ensures x / d == q && x % d == r
  {
    var q' := x / d;
    assert x == q' * d + x % d;
    if q > q' {
      MulGap(q, q', d);
    } else if q < q' {
      MulGap(q', q, d);
    }
  }

  lemma HalveThenSplit(a: nat, m: nat)
    requires m > 0
    ensures a / (2 * m) == a / 2 / m
    ensures a % (2 * m) == 2 * (a / 2 % m) + a % 2
    ensures a % (2 * m) / 2 == a / 2 % m
    ensures a % (2 * m) % 2 == a % 2
  {
    var q, r := a / 2 / m, a / 2 % m;
    var p := q * m;
    assert a / 2 == p + r;
    assert q * (2 * m) == 2 * p;
    DivModUnique(a, 2 * m, q, 2 * r + a % 2);
  }

  lemma {:induction false} ShrAndLow(w: nat, k: nat)
    ensures Shr(w, k) == w / Pow2(k) && Low(w, k) == w % Pow2(k)
    decreases k
  {
    if k == 0 {
    } else {
      ShrAndLow(w / 2, k - 1);
      HalveThenSplit(w, Pow2(k - 1));
    }
  }

  lemma OrHalves(a: nat, b: nat)
    ensures Or(a, b) / 2 == Or(a / 2, b / 2)
    ensures Or(a, b) % 2 == if a % 2 == 1 || b % 2 == 1 then 1 else 0
  {
  }

  lemma {:induction false} OrShr(a: nat, b: nat, k: nat)
    ensures Shr(Or(a, b), k) == Or(Shr(a, k), Shr(b, k))
    decreases k
  {
    if k == 0 {
    } else {
      OrHalves(a, b);
      OrShr(a / 2, b / 2, k - 1);
    }
  }

  lemma {:induction false} OrLow(a: nat, b: nat, k: nat)
    ensures Low(Or(a, b), k) == Or(Low(a, k), Low(b, k))
    decreases k
  {
    if k == 0 {
    } else {
      OrHalves(a, b);
      OrLow(a / 2, b / 2, k - 1);
      OrHalves(Low(a, k), Low(b, k));
    }
  }

  lemma {:induction false} OrZero(a: nat)
    ensures Or(a, 0) == a && Or(0, a) == a
    decreases a
  {
    if a == 0 {
    } else {
      OrZero(a / 2);
    }
  }

  /** Fields that do not overlap are combined by `|` to their sum. */
  lemma {:induction false} OrOfDisjointFields(hi: nat, lo: nat, k: nat)
    requires lo < Pow2(k)
    ensures Or(hi * Pow2(k), lo) == hi * Pow2(k) + lo
  {
    if k == 0 {
      OrZero(hi);
    } else {
      var m := Pow2(k - 1);
      assert hi * (2 * m) == 2 * (hi * m);
      assert hi * (2 * m) / 2 == hi * m;
      OrOfDisjointFields(hi, lo / 2, k - 1);
    }
  }

  /** `|` with a word below bit k leaves the part from bit k up alone. */
  lemma {:induction false} OrOntoField(hi: nat, lo: nat, w: nat, k: nat)
    requires lo < Pow2(k) && w < Pow2(k)
    ensures Or(hi * Pow2(k) + lo, w) == hi * Pow2(k) + Or(lo, w)
  {
    if k == 0 {
      OrZero(hi);
      OrZero(0);
    } else {
      var m := Pow2(k - 1);
      assert hi * (2 * m) == 2 * (hi * m);
      OrHalves(2 * (hi * m) + lo, w);
      OrHalves(lo, w);
      OrOntoField(hi, lo / 2, w / 2, k - 1);
    }
  }

  /** The bits of a word are its binary digits. */
  lemma {:induction false} BitIsDigit(w: nat, k: nat)
    ensures Bit(w, k) <==> w / Pow2(k) % 2 == 1
    decreases k
  {
    if k == 0 {
    } else {
      BitIsDigit(w / 2, k - 1);
      HalveThenSplit(w, Pow2(k - 1));
    }
  }

  lemma {:induction false} ShrBit(w: nat, n: nat, k: nat)
    ensures Bit(Shr(w, n), k) == Bit(w, n + k)
    decreases n
  {
    if n == 0 {
    } else {
      ShrBit(w / 2, n - 1, k);
    }
  }

  lemma {:induction false} LowBit(w: nat, n: nat, k: nat)
    ensures Bit(Low(w, n), k) == (k < n && Bit(w, k))
    decreases n
  {
    if n == 0 {
      ZeroBits(k);
    } else if k > 0 {
      assert Low(w, n) / 2 == Low(w / 2, n - 1);
      LowBit(w / 2, n - 1, k - 1);
    } else {
      assert Low(w, n) % 2 == w % 2;
    }
  }

  lemma {:induction false} ShlBit(w: nat, n: nat, k: nat)
    ensures Bit(w * Pow2(n), k) == (k >= n && Bit(w, k - n))
    decreases n
  {
    if n == 0 {
    } else {
      var half := w * Pow2(n - 1);
      assert w * Pow2(n) == 2 * half;
      if k == 0 {
      } else {
        ShlBit(w, n - 1, k - 1);
        assert 2 * half / 2 == half;
      }
    }
  }
}
