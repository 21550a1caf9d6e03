/** The exposure-risk arithmetic of update_result, computed exactly over real
    numbers: the prevalence rounded to thousandths and the probability, as a
    whole percentage, that at least one attendee is infected. */
module Risk {

  /** Python's round(x) to an int: the nearest integer, and on a tie the
      even one. */
  function RoundHalfEven(x: real): (r: int)
    ensures x - 0.5 <= r as real <= x + 0.5
    ensures (r as real - x == 0.5 || x - r as real == 0.5) ==> r % 2 == 0
  {
    var f := x.Floor;
    var d := x - f as real;
    if d < 0.5 then f
    else if d > 0.5 then f + 1
    else if f % 2 == 0 then f
    else f + 1
  }

  /** The two properties above pin the rounded value down: no other integer
      has them. */
  lemma RoundHalfEvenUnique(x: real, n: int)
    requires x - 0.5 <= n as real <= x + 0.5
    requires (n as real - x == 0.5 || x - n as real == 0.5) ==> n % 2 == 0
    ensures n == RoundHalfEven(x)
  {
  }

  /** Rounding never reverses the order of two values. */
  lemma RoundHalfEvenMonotone(x: real, y: real)
    requires x <= y
    ensures RoundHalfEven(x) <= RoundHalfEven(y)
  {
  }

  /** Rounding keeps a value that lies between two integers between them. */
  lemma RoundHalfEvenWithin(x: real, lo: int, hi: int)
    requires lo as real <= x <= hi as real
    ensures lo <= RoundHalfEven(x) <= hi
  {
    RoundHalfEvenMonotone(lo as real, x);
    RoundHalfEvenMonotone(x, hi as real);
    RoundHalfEvenUnique(lo as real, lo);
    RoundHalfEvenUnique(hi as real, hi);
  }

  /** round(cases / population, 3) in thousandths, computed on integers:
      the quotient 1000 * cases / population rounded half to even. */
  function Prevalence(cases: nat, population: nat): (p: nat)
    requires population > 0
    ensures cases <= population ==> p <= 1000
  {
    var q := (1000 * cases) / population;
    var rem := (1000 * cases) % population;
    QuotientBound(cases, population);
    if 2 * rem < population then q
    else if 2 * rem > population then q + 1
    else if q % 2 == 0 then q
    else q + 1
  }

  lemma MulLeCancel(a: int, b: int, c: int)
    requires c > 0 && a * c <= b * c
    ensures a <= b
  {
  }

  /** With at most as many cases as people the quotient stays at or below
      1000, and reaches it only with no remainder. */
  lemma QuotientBound(cases: nat, population: nat)
    requires population > 0
    ensures cases <= population ==> (1000 * cases) / population <= 1000
    ensures cases <= population && (1000 * cases) / population == 1000 ==> (1000 * cases) % population == 0
  {
    var q := (1000 * cases) / population;
    var rem := (1000 * cases) % population;
    assert 1000 * cases == q * population + rem;
    if cases <= population {
      assert q * population <= 1000 * population;
      MulLeCancel(q, 1000, population);
      if q == 1000 {
        assert 1000 * cases == 1000 * population + rem;
      }
    }
  }

  /** n / d over the reals is the integer quotient plus the remainder's
      fraction of d, a fraction in [0, 1). */
  lemma RealQuotient(n: nat, d: nat)
    requires d > 0
    ensures n as real / d as real == (n / d) as real + (n % d) as real / d as real
    ensures 0.0 <= (n % d) as real / d as real < 1.0
    ensures 2 * (n % d) < d <==> (n % d) as real / d as real < 0.5
    ensures 2 * (n % d) > d <==> (n % d) as real / d as real > 0.5
  {
    var q, rem := n / d, n % d;
    assert n as real == q as real * d as real + rem as real;
    DivideCompare(rem as real, d as real, 1.0);
    DivideCompare(rem as real, d as real, 0.5);
    DivideCompareAbove(rem as real, d as real, 0.5);
  }

  lemma DivideCompare(a: real, d: real, c: real)
    requires d > 0.0
    ensures a / d < c <==> a < c * d
  {
    assert a / d * d == a;
  }

  lemma DivideCompareAbove(a: real, d: real, c: real)
    requires d > 0.0
    ensures a / d > c <==> a > c * d
  {
    assert a / d * d == a;
  }

  /** The integer computation is Python's rounding of the exact quotient. */
  lemma PrevalenceIsRoundedRatio(cases: nat, population: nat)
    requires population > 0
    ensures Prevalence(cases, population) == RoundHalfEven((1000 * cases) as real / population as real)
  {
    var n := 1000 * cases;
    RealQuotient(n, population);
    var x := n as real / population as real;
    assert x.Floor == n / population;
  }

  /** x to the n-th power. */
  function Pow(x: real, n: nat): real
    decreases n
  {
    if n == 0 then 1.0 else x * Pow(x, n - 1)
  }

  lemma MulInUnit(a: real, b: real)
    requires 0.0 <= a <= 1.0 && 0.0 <= b <= 1.0
    ensures 0.0 <= a * b <= b
  {
  }

  lemma {:induction false} PowInUnit(x: real, n: nat)
    requires 0.0 <= x <= 1.0
    ensures 0.0 <= Pow(x, n) <= 1.0
    decreases n
  {
    if n > 0 {
      PowInUnit(x, n - 1);
      MulInUnit(x, Pow(x, n - 1));
    }
  }

  /** A base in [0, 1] gives powers that shrink as the exponent grows. */
  lemma {:induction false} PowAntitone(x: real, n: nat, m: nat)
    requires 0.0 <= x <= 1.0
    requires n <= m
    ensures Pow(x, m) <= Pow(x, n)
    decreases m - n
  {
    if n < m {
      PowAntitone(x, n, m - 1);
      PowInUnit(x, m - 1);
      assert Pow(x, m) == x * Pow(x, m - 1) <= Pow(x, m - 1);
    }
  }

  /** A larger non-negative base gives a larger power. */
  lemma {:induction false} PowMonotoneInBase(x: real, y: real, n: nat)
    requires 0.0 <= x <= y
    ensures 0.0 <= Pow(x, n) <= Pow(y, n)
    decreases n
  {
    if n > 0 {
      PowMonotoneInBase(x, y, n - 1);
      assert x * Pow(x, n - 1) <= y * Pow(x, n - 1) <= y * Pow(y, n - 1);
    }
  }

  /** (1 - (1 - prevalence) ** attendees) * 100 with the prevalence given in
      thousandths: the percentage chance that at least one of the attendees
      is infected. */
  function RiskPercent(p: nat, attendees: nat): real {
    (1.0 - Pow(1.0 - p as real / 1000.0, attendees)) * 100.0
  }

  /** For a prevalence of at most one the risk is a percentage. */
  lemma RiskInRange(p: nat, attendees: nat)
    requires p <= 1000
    ensures 0.0 <= RiskPercent(p, attendees) <= 100.0
  {
    PowInUnit(1.0 - p as real / 1000.0, attendees);
  }

  /** Nobody attending means no risk. */
  lemma RiskWithoutAttendees(p: nat)
    ensures RiskPercent(p, 0) == 0.0
  {
  }

  /** A county without cases carries no risk; with everybody infected any
      gathering is certain to include an infected person. */
  lemma RiskAtExtremes(attendees: nat)
    ensures RiskPercent(0, attendees) == 0.0
    ensures attendees >= 1 ==> RiskPercent(1000, attendees) == 100.0
  {
    PowOfOne(attendees);
    if attendees >= 1 {
      assert Pow(0.0, attendees) == 0.0 * Pow(0.0, attendees - 1);
    }
  }

  lemma {:induction false} PowOfOne(n: nat)
    ensures Pow(1.0, n) == 1.0
    decreases n
  {
    if n > 0 {
      PowOfOne(n - 1);
    }
  }

  /** More attendees never lower the risk. */
  lemma RiskMonotoneInAttendees(p: nat, n: nat, m: nat)
    requires p <= 1000
    requires n <= m
    ensures RiskPercent(p, n) <= RiskPercent(p, m)
  {
    PowAntitone(1.0 - p as real / 1000.0, n, m);
  }

  /** A higher prevalence never lowers the risk. */
  lemma RiskMonotoneInPrevalence(p: nat, q: nat, attendees: nat)
    requires p <= q <= 1000
    ensures RiskPercent(p, attendees) <= RiskPercent(q, attendees)
  {
    PowMonotoneInBase(1.0 - q as real / 1000.0, 1.0 - p as real / 1000.0, attendees);
  }

  /** round(risk): the whole percentage update_result displays. */
  function RoundedRisk(p: nat, attendees: nat): int {
    RoundHalfEven(RiskPercent(p, attendees))
  }

  /** The displayed risk is a whole percentage between 0 and 100 and is 0
      when nobody attends. */
  lemma RoundedRiskInRange(p: nat, attendees: nat)
    requires p <= 1000
    ensures 0 <= RoundedRisk(p, attendees) <= 100
    ensures attendees == 0 ==> RoundedRisk(p, attendees) == 0
  {
    RiskInRange(p, attendees);
    RoundHalfEvenWithin(RiskPercent(p, attendees), 0, 100);
    if attendees == 0 {
      RoundHalfEvenUnique(0.0, 0);
    }
  }

  /** The displayed risk does not drop when the attendee count grows. */
  lemma RoundedRiskMonotoneInAttendees(p: nat, n: nat, m: nat)
    requires p <= 1000
    requires n <= m
    ensures RoundedRisk(p, n) <= RoundedRisk(p, m)
  {
    RiskMonotoneInAttendees(p, n, m);
    RoundHalfEvenMonotone(RiskPercent(p, n), RiskPercent(p, m));
  }

  lemma {:induction false} PowAdd(x: real, a: nat, b: nat)
    ensures Pow(x, a + b) == Pow(x, a) * Pow(x, b)
    decreases a
  {
    if a > 0 {
      PowAdd(x, a - 1, b);
    }
  }

  lemma MulBounds(a: real, b: real, la: real, ha: real, lb: real, hb: real)
    requires 0.0 <= la <= a <= ha && 0.0 <= lb <= b <= hb
    ensures la * lb <= a * b <= ha * hb
  {
    assert la * lb <= a * lb <= a * b;
    assert a * b <= ha * b <= ha * hb;
  }

  /** Bounds on two powers of x bound the power of their summed exponents. */
  lemma PowBoundsStep(x: real, a: nat, b: nat, la: real, ha: real, lb: real, hb: real)
    requires 0.0 <= la <= Pow(x, a) <= ha && 0.0 <= lb <= Pow(x, b) <= hb
    ensures la * lb <= Pow(x, a + b) <= ha * hb
  {
    PowAdd(x, a, b);
    MulBounds(Pow(x, a), Pow(x, b), la, ha, lb, hb);
  }

  /** A population of 1,000,000 with 3,000 cases has a prevalence of 0.003;
      a gathering of 50 then has a 1 - 0.997^50 chance, about 13.9 percent,
      of including an infected person, displayed as 14. */
  lemma RiskScenario()
    ensures Prevalence(3000, 1000000) == 3
    ensures RoundedRisk(3, 50) == 14
  {
    var x := 0.997;
    assert 1.0 - 3 as real / 1000.0 == x;
    assert Pow(x, 2) == 0.994009;
    PowBoundsStep(x, 2, 2, 0.994009, 0.994009, 0.994009, 0.994009);
    PowBoundsStep(x, 4, 4, 0.988, 0.9881, 0.988, 0.9881);
    PowBoundsStep(x, 8, 8, 0.976, 0.9764, 0.976, 0.9764);
    PowBoundsStep(x, 16, 16, 0.9525, 0.9534, 0.9525, 0.9534);
    PowBoundsStep(x, 32, 16, 0.9072, 0.909, 0.9525, 0.9534);
    PowBoundsStep(x, 48, 2, 0.864, 0.8667, 0.994009, 0.994009);
    assert 0.8588 <= Pow(x, 50) <= 0.8616;
    RoundHalfEvenUnique(RiskPercent(3, 50), 14);
  }
}
