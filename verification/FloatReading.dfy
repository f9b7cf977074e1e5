/**
 Integers that pass through a 64-bit float, as versions do that pkg/gofr/migration/elasticsearch.go
 reads back from JSON.
 */
module FloatReading {

  const EXACT := 0x20_0000_0000_0000

  /** The distance between neighbouring floats around a: 1 below 2^53, doubling with every power of two. */
  function Ulp(a: nat): (u: nat)
    ensures u >= 1 && (a < EXACT ==> u == 1)
  {
    if a < EXACT then 1 else 2 * Ulp(a / 2)
  }

  /** The nearest float, ties to the even one. */
  function RoundNat(a: nat): nat {
    var u := Ulp(a);
    var q, r := a / u, a % u;
    if 2 * r < u || (2 * r == u && q % 2 == 0) then a - r else a - r + u
  }

  /** A stored integer as int64(float64) brings it back. */
  function ReadBack(v: int): int { if v < 0 then -(RoundNat(-v) as int) else RoundNat(v) }

  lemma {:induction false} UlpQuotient(a: nat)
    ensures a >= EXACT ==> EXACT / 2 <= a / Ulp(a) < EXACT && Ulp(a) % 2 == 0
    ensures a < EXACT ==> a / Ulp(a) == a
  {
    if a >= EXACT {
      UlpQuotient(a / 2);
      DivDiv(a, Ulp(a / 2));
    }
  }

  lemma DivDiv(a: nat, u: nat)
    requires u >= 1
    ensures a / (2 * u) == a / 2 / u
  {
    var q := a / 2 / u;
    assert q * u <= a / 2 < (q + 1) * u;
    assert q * (2 * u) <= a < (q + 1) * (2 * u);
    QuotientIs(a, 2 * u, q);
  }

  lemma QuotientIs(a: nat, u: nat, q: nat)
    requires u >= 1 && q * u <= a < (q + 1) * u
    ensures a / u == q
  {
    var p := a / u;
    Below(p, q + 1, u, a);
    Below(q, p + 1, u, a);
  }

  lemma Below(x: nat, y: nat, u: nat, a: nat)
    requires x * u <= a < y * u
    ensures x < y
  {
    assert (y - x) * u > 0;
  }

  /** A 53-bit number of units of some distance has that distance. */
  lemma {:induction false} UlpScale(a: nat, c: nat)
    requires a >= EXACT && EXACT / 2 <= c < EXACT
    ensures Ulp(c * Ulp(a)) == Ulp(a)
  {
    var u := Ulp(a / 2);
    assert c * (2 * u) == 2 * (c * u);
    assert c * u >= c;
    assert c * (2 * u) >= EXACT && c * (2 * u) / 2 == c * u;
    if a / 2 >= EXACT { UlpScale(a / 2, c); }
  }

  lemma MultipleOf(q: nat, u: nat)
    requires u >= 1
    ensures (q * u) % u == 0 && (q * u) / u == q
  {
    assert (q + 1) * u == q * u + u;
    QuotientIs(q * u, u, q);
  }

  /** Exactly the multiples of their own distance are read back unchanged. */
  lemma RoundFixes(a: nat)
    ensures RoundNat(a) == a <==> a % Ulp(a) == 0
  {
    hide Ulp;
  }

  /** A whole number of units, up to one more than fits 53 bits, is a multiple of its own distance. */
  lemma UnitsFixed(a: nat, c: nat)
    requires a >= EXACT && EXACT / 2 <= c <= EXACT
    ensures RoundNat(c * Ulp(a)) == c * Ulp(a)
  {
    hide RoundNat, Ulp;
    var u := Ulp(a);
    if c < EXACT {
      UlpScale(a, c);
      MultipleOf(c, u);
    } else {
      TopScale(a);
      MultipleOf(EXACT / 2, 2 * u);
      assert c * u == EXACT / 2 * (2 * u);
    }
    RoundFixes(c * u);
  }

  lemma RoundIsFixed(a: nat)
    ensures RoundNat(RoundNat(a)) == RoundNat(a)
  {
    if a >= EXACT {
      UlpQuotient(a);
      var c := RoundedUnits(a);
      UnitsFixed(a, c);
    } else {
      hide RoundNat;
      RoundFixes(a);
    }
  }

  lemma RoundedUnits(a: nat) returns (c: nat)
    ensures RoundNat(a) == c * Ulp(a) && a / Ulp(a) <= c <= a / Ulp(a) + 1
  {
    hide Ulp;
    var u := Ulp(a);
    assert a == a / u * u + a % u && (a / u + 1) * u == a / u * u + u;
    c := if RoundNat(a) == a - a % u then a / u else a / u + 1;
  }

  lemma TopScale(a: nat)
    requires a >= EXACT
    ensures Ulp(EXACT * Ulp(a)) == 2 * Ulp(a)
  {
    var u := Ulp(a);
    assert EXACT * u == 2 * (EXACT / 2 * u) && EXACT * u / 2 == EXACT / 2 * u;
    assert EXACT * u >= EXACT;
    UlpScale(a, EXACT / 2);
  }

  /** What is read lies within half the distance between floats. */
  lemma RoundNear(a: nat)
    ensures -(Ulp(a) as int) <= 2 * (RoundNat(a) - a) <= Ulp(a)
  {
    hide Ulp;
  }

  /** Reading is exact up to 2^53, and reading twice is reading once. */
  lemma {:induction false} ReadBackLaws(v: int)
    ensures -EXACT <= v <= EXACT ==> ReadBack(v) == v
    ensures ReadBack(ReadBack(v)) == ReadBack(v)
  {
    var a: nat := if v < 0 then -v else v;
    hide RoundNat;
    RoundIsFixed(a);
    RoundFixes(a);
    if a == EXACT { assert Ulp(EXACT) == 2 * Ulp(EXACT / 2); }
  }

  // ----- Order -----

  lemma {:induction false} UlpSteps(a: nat, b: nat)
    requires a <= b
    ensures Ulp(a) == Ulp(b) || 2 * Ulp(a) <= Ulp(b)
  {
    if b >= EXACT {
      if a >= EXACT {
        UlpSteps(a / 2, b / 2);
      } else {
        assert Ulp(b) == 2 * Ulp(b / 2);
      }
    }
  }

  lemma Times(x: nat, y: nat, u: nat)
    requires x <= y
    ensures x * u <= y * u
  {
  }

  /** Two numbers rounded to the same unit: each moves by at most half of it. */
  lemma SameUnits(a: nat, b: nat)
    requires a < b && Ulp(a) == Ulp(b)
    ensures RoundNat(a) <= RoundNat(b)
  {
    hide Ulp, RoundNat;
    var u := Ulp(a);
    RoundNear(a);
    RoundNear(b);
    var c := RoundedUnits(a);
    var d := RoundedUnits(b);
    assert (d + 1) * u == d * u + u;
    Below(c, d + 1, u, c * u);
    Times(c, d, u);
  }

  /** Otherwise a power of two lies between them, and between what they are rounded to. */
  lemma OtherUnits(a: nat, b: nat)
    requires a <= b && 2 * Ulp(a) <= Ulp(b)
    ensures RoundNat(a) <= EXACT * Ulp(a) <= RoundNat(b)
  {
    hide Ulp, RoundNat;
    UlpQuotient(a);
    UlpQuotient(b);
    var c := RoundedUnits(a);
    var d := RoundedUnits(b);
    Times(c, EXACT, Ulp(a));
    Times(EXACT / 2, d, Ulp(b));
  }

  /** Rounding keeps the order. */
  lemma {:induction false} RoundMonotone(a: nat, b: nat)
    requires a <= b
    ensures RoundNat(a) <= RoundNat(b)
  {
    hide Ulp, RoundNat;
    UlpSteps(a, b);
    if Ulp(a) != Ulp(b) {
      OtherUnits(a, b);
    } else if a < b {
      SameUnits(a, b);
    }
  }

  lemma ReadBackMonotone(v: int, w: int)
    requires v <= w
    ensures ReadBack(v) <= ReadBack(w)
  {
    hide RoundNat;
    if v >= 0 {
      RoundMonotone(v, w);
    } else if w < 0 {
      RoundMonotone(-w, -v);
    }
  }

  // ----- 64-bit integers -----

  const LIMIT := 0x8000_0000_0000_0000

  function Power(n: nat): nat { if n == 0 then 1 else 2 * Power(n - 1) }

  lemma {:induction false} UlpAtMost(a: nat, n: nat)
    requires a < EXACT * Power(n)
    ensures Ulp(a) <= Power(n)
  {
    if a >= EXACT { UlpAtMost(a / 2, n - 1); }
  }

  /** A 64-bit integer moves by at most 512. */
  lemma NearInteger(v: int)
    requires -LIMIT < v < LIMIT
    ensures -512 <= ReadBack(v) - v <= 512
  {
    var a := if v < 0 then -v else v;
    assert Power(2) == 4 && Power(4) == 16 && Power(6) == 64 && Power(8) == 256 && Power(10) == 1024;
    UlpAtMost(a, 10);
    hide RoundNat, Ulp;
    RoundNear(a);
  }
}
