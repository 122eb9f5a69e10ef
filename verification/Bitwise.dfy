/** Bitwise operations on unsigned words of any width, as far as prefix masks need them. */
module Bitwise {

  function Pow2(k: nat): (r: nat)
    ensures r >= 1
  {
    if k == 0 then 1 else 2 * Pow2(k - 1)
  }

  function And(x: nat, m: nat): nat
    decreases x
  {
    if x == 0 then 0 else 2 * And(x / 2, m / 2) + if x % 2 == 1 && m % 2 == 1 then 1 else 0
  }

  function Or(x: nat, m: nat): nat
    decreases x + m
  {
    if x == 0 && m == 0 then 0
    else 2 * Or(x / 2, m / 2) + if x % 2 == 1 || m % 2 == 1 then 1 else 0
  }

  function Not(w: nat, m: nat): nat
    requires m < Pow2(w)
  {
    Pow2(w) - 1 - m
  }

  lemma {:induction false} Pow2Grows(k: nat, w: nat)
    requires k <= w
    ensures Pow2(k) <= Pow2(w)
  {
    if k < w {
      Pow2Grows(k, w - 1);
    }
  }

  /** The word of w bits whose lowest k are zero and the others one. */
  function High(w: nat, k: nat): (m: nat)
    requires k <= w
    ensures m < Pow2(w)
  {
    Pow2Grows(k, w);
    Pow2(w) - Pow2(k)
  }

  /** The first address of the block of size d that holds x. */
  function Floor(x: nat, d: nat): nat
    requires d > 0
  {
    d * (x / d)
  }

  lemma HalfFloor(x: nat, d: nat)
    requires d > 0
    ensures Floor(x, 2 * d) == 2 * Floor(x / 2, d)
  {
    assert x / (2 * d) == (x / 2) / d by { HalfDivide(x, d); }
    assert 2 * d * ((x / 2) / d) == 2 * (d * ((x / 2) / d));
  }

  lemma HalfDivide(x: nat, d: nat)
    requires d > 0
    ensures x / (2 * d) == (x / 2) / d
  {
    var q, h := (x / 2) / d, x / 2;
    var r := h - d * q;
    assert 0 <= r < d;
    assert x == (2 * d) * q + (2 * r + x % 2) by {
      assert x == 2 * h + x % 2 && 2 * h == 2 * (d * q) + 2 * r;
      assert 2 * (d * q) == (2 * d) * q;
    }
    QuotientIs(x, 2 * d, q, 2 * r + x % 2);
  }

  lemma Distribute(d: nat, p: nat, k: nat)
    ensures d * (p + k) == d * p + d * k
  {
  }

  lemma Multiples(d: nat, p: nat, q: nat)
    requires p < q
    ensures d * p + d <= d * q
  {
    var k := q - p - 1;
    Distribute(d, p, 1 + k);
    Distribute(d, 1, k);
    assert p + (1 + k) == q;
  }

  lemma QuotientIs(x: nat, d: nat, q: nat, r: nat)
    requires d > 0 && x == d * q + r && r < d
    ensures x / d == q
  {
    var p := x / d;
    assert d * p <= x < d * p + d;
    if p < q {
      Multiples(d, p, q);
    } else if q < p {
      Multiples(d, q, p);
    }
  }

  lemma AndOdd(x: nat, m: nat)
    requires m % 2 == 1
    ensures And(x, m) == 2 * And(x / 2, m / 2) + x % 2
  {
  }

  lemma {:induction false} AndOnes(x: nat, w: nat)
    requires x < Pow2(w)
    ensures And(x, Pow2(w) - 1) == x
  {
    if x > 0 {
      AndOnes(x / 2, w - 1);
      var d := Pow2(w - 1);
      assert (2 * d - 1) / 2 == d - 1 && (2 * d - 1) % 2 == 1;
      AndOdd(x, 2 * d - 1);
      hide And;
    }
  }

  /** Masking away the lowest k bits. */
  lemma {:induction false} AndHigh(x: nat, w: nat, k: nat)
    requires k <= w && x < Pow2(w)
    ensures And(x, High(w, k)) == Floor(x, Pow2(k))
  {
    if k == 0 {
      AndOnes(x, w);
    } else if x > 0 {
      AndHigh(x / 2, w - 1, k - 1);
      HalfFloor(x, Pow2(k - 1));
      assert High(w, k) == 2 * High(w - 1, k - 1);
      hide Floor, High;
    }
  }

  /** Setting the lowest k bits. */
  lemma {:induction false} OrLow(x: nat, k: nat)
    ensures Or(x, Pow2(k) - 1) == Floor(x, Pow2(k)) + Pow2(k) - 1
  {
    if k == 0 {
      OrZero(x);
    } else {
      OrLow(x / 2, k - 1);
      OrLowStep(x, Pow2(k - 1));
    }
  }

  lemma OrLowStep(x: nat, d: nat)
    requires d > 0 && Or(x / 2, d - 1) == Floor(x / 2, d) + d - 1
    ensures Or(x, 2 * d - 1) == Floor(x, 2 * d) + 2 * d - 1
  {
    hide Floor, Or;
    HalfFloor(x, d);
    assert (2 * d - 1) / 2 == d - 1 && (2 * d - 1) % 2 == 1;
    OrOdd(x, 2 * d - 1);
  }

  lemma OrOdd(x: nat, m: nat)
    requires m % 2 == 1
    ensures Or(x, m) == 2 * Or(x / 2, m / 2) + 1
  {
  }

  lemma {:induction false} OrZero(x: nat)
    ensures Or(x, 0) == x
  {
    if x > 0 {
      OrZero(x / 2);
    }
  }

  lemma InBlock(a: nat, x: nat, d: nat)
    requires d > 0
    ensures Floor(a, d) <= x <= Floor(a, d) + d - 1 <==> x / d == a / d
  {
    var q := a / d;
    if d * q <= x <= d * q + d - 1 {
      QuotientIs(x, d, q, x - d * q);
    }
    assert d * (x / d) <= x < d * (x / d) + d;
  }

  lemma FloorDecides(a: nat, x: nat, d: nat)
    requires d > 0
    ensures Floor(x, d) == Floor(a, d) <==> x / d == a / d
  {
    if x / d < a / d {
      Multiples(d, x / d, a / d);
    } else if a / d < x / d {
      Multiples(d, a / d, x / d);
    }
  }

  /** Setting the top bit of a word that does not have it. */
  lemma {:induction false} OrTop(x: nat, w: nat)
    requires x < Pow2(w)
    ensures Or(x, Pow2(w)) == x + Pow2(w)
  {
    if w > 0 {
      OrTop(x / 2, w - 1);
    }
  }

  /** Shifting a prefix mask down and setting its top bit makes the prefix one longer, until
      it is the whole word. */
  lemma ShiftIn(w: nat, k: nat)
    requires k <= w && w > 0
    ensures Or(High(w, k) / 2, Pow2(w - 1)) == High(w, if k == 0 then 0 else k - 1)
  {
    var h := High(w, k) / 2;
    if k > 0 {
      Pow2Grows(k - 1, w - 1);
    }
    assert h == Pow2(w - 1) - if k == 0 then 1 else Pow2(k - 1);
    OrTop(h, w - 1);
  }

  /** A prefix is an interval: between the masked address and the address with all the other
      bits set lie exactly the words that agree with it under the mask, and these are the
      words with the same leading bits. */
  lemma PrefixIsInterval(a: nat, x: nat, w: nat, k: nat)
    requires k <= w && a < Pow2(w) && x < Pow2(w)
    ensures
      var m := High(w, k);
      && (And(a, m) <= x <= Or(a, Not(w, m)) <==> And(x, m) == And(a, m))
      && (And(x, m) == And(a, m) <==> x / Pow2(k) == a / Pow2(k))
      && And(a, m) <= a <= Or(a, Not(w, m)) < Pow2(w)
  {
    var d := Pow2(k);
    AndHigh(a, w, k);
    AndHigh(x, w, k);
    OrLow(a, k);
    InBlock(a, x, d);
    InBlock(a, a, d);
    FloorDecides(a, x, d);
    LastBlock(a, w, k);
    assert Not(w, High(w, k)) == Pow2(k) - 1;
    hide And, Or, Floor, High, Not, Pow2;
  }

  lemma LastBlock(a: nat, w: nat, k: nat)
    requires k <= w && a < Pow2(w)
    ensures Floor(a, Pow2(k)) + Pow2(k) <= Pow2(w)
    decreases k
  {
    if k > 0 {
      LastBlock(a / 2, w - 1, k - 1);
      HalfFloor(a, Pow2(k - 1));
    }
  }
}
