/** rational_best_approximation: continued-fraction expansion of a clock ratio under two bounds. */
module Rational {
  import opened Arithmetic
  import opened Widths

  ghost predicate Divides(a: nat, b: nat) {
    exists k: nat :: b == a * k
  }

  ghost predicate Coprime(a: nat, b: nat) {
    forall h: nat :: h > 0 && Divides(h, a) && Divides(h, b) ==> h == 1
  }

  function Gcd(n: nat, d: nat): nat
    decreases d
  {
    if d == 0 then n else Gcd(d, n % d)
  }

  lemma DivMod(n: nat, d: nat)
    requires d > 0
    ensures n == (n / d) * d + n % d
  {}

  lemma DividesSum(h: nat, a: nat, b: nat, q: nat)
    requires Divides(h, a) && Divides(h, b)
    ensures Divides(h, q * a + b)
  {
    var i: nat :| a == h * i;
    var j: nat :| b == h * j;
    Associate(h, q, i);
    Associate(q, h, i);
    assert h * (q * i + j) == h * (q * i) + h * j;
  }

  lemma DividesDifference(h: nat, a: nat, b: nat, q: nat)
    requires h > 0 && Divides(h, a) && Divides(h, q * a + b)
    ensures Divides(h, b)
  {
    var i: nat :| a == h * i;
    var k: nat :| q * a + b == h * k;
    Associate(h, q, i);
    Associate(q, h, i);
    var m := k - q * i;
    assert h * m == h * k - h * (q * i);
    MulBounds(h, m);
    assert b == h * m;
  }

  lemma DividesSelf(n: nat)
    ensures Divides(n, n) && Divides(n, 0)
  {
    assert n == n * 1 && 0 == n * 0;
  }

  lemma {:induction false} GcdDivides(n: nat, d: nat)
    ensures Divides(Gcd(n, d), n) && Divides(Gcd(n, d), d)
    decreases d
  {
    hide Divides;
    if d == 0 {
      DividesSelf(n);
    } else {
      GcdDivides(d, n % d);
      DivMod(n, d);
      DividesSum(Gcd(n, d), d, n % d, n / d);
    }
  }

  lemma {:induction false} GcdGreatest(n: nat, d: nat, h: nat)
    requires h > 0 && Divides(h, n) && Divides(h, d)
    ensures Divides(h, Gcd(n, d))
    decreases d
  {
    hide Divides;
    if d > 0 {
      DivMod(n, d);
      DividesDifference(h, d, n % d, n / d);
      GcdGreatest(d, n % d, h);
    }
  }

  lemma {:induction false} GcdPositive(n: nat, d: nat)
    requires n > 0 || d > 0
    ensures Gcd(n, d) > 0
    decreases d
  {
    if d > 0 {
      GcdPositive(d, n % d);
    }
  }

  lemma MulDiv(g: nat, p: nat)
    requires g > 0
    ensures (g * p) / g == p
  {
    DivUnique(g * p, g, p, 0);
  }

  /** Dividing by the greatest common divisor gives the fraction in lowest terms. */
  lemma LowestTerms(n: nat, d: nat)
    requires n > 0 || d > 0
    ensures var g := Gcd(n, d);
      g > 0 && n == g * (n / g) && d == g * (d / g) && n * (d / g) == d * (n / g) && Coprime(n / g, d / g)
  {
    hide Gcd;
    GcdPositive(n, d);
    GcdDivides(n, d);
    var g := Gcd(n, d);
    var p: nat :| n == g * p;
    var q: nat :| d == g * q;
    MulDiv(g, p);
    MulDiv(g, q);
    Associate(g, p, q);
    Associate(g, q, p);
    forall h: nat | h > 0 && Divides(h, p) && Divides(h, q) ensures h == 1 {
      CommonFactor(n, d, g, p, q, h);
    }
  }

  lemma CommonFactor(n: nat, d: nat, g: nat, p: nat, q: nat, h: nat)
    requires g == Gcd(n, d) > 0 && n == g * p && d == g * q
    requires h > 0 && Divides(h, p) && Divides(h, q)
    ensures h == 1
  {
    hide Gcd;
    var i: nat :| p == h * i;
    var j: nat :| q == h * j;
    Associate(g, h, i);
    Associate(g, h, j);
    MulBounds(g, h);
    assert Divides(g * h, n) && Divides(g * h, d);
    GcdGreatest(n, d, g * h);
    var k: nat :| g == (g * h) * k;
    Associate(g, h, k);
    Cancel(g, h * k);
    UnitFactor(h, k);
  }

  lemma Cancel(g: nat, x: int)
    requires g > 0 && g == g * x
    ensures x == 1
  {
    MulBounds(g, x - 1);
    assert g * (x - 1) == g * x - g;
  }

  lemma UnitFactor(h: nat, k: nat)
    requires h > 0 && h * k == 1
    ensures h == 1
  {
    MulBounds(h, k);
  }

  /** What one expansion step keeps: given == x1 * n + x0 * d for numerators and for denominators. */
  lemma ExpandStep(given: nat, n: nat, d: nat, x0: nat, x1: nat)
    requires d > 0 && given == x1 * n + x0 * d
    ensures var t := x0 + (n / d) * x1;
      given == t * d + x1 * (n % d) && t <= given && (n / d) * x1 <= given
  {
    DivMod(n, d);
    var a: nat, r: nat := n / d, n % d;
    var t := x0 + a * x1;
    Distribute(x1, a * d, r);
    Associate(x1, a, d);
    Commute(x1, a);
    Distribute(d, x0, a * x1);
    MulNonNeg(x1, r);
    MulNonNeg(a, x1);
    AtMost(t, d, given);
  }

  lemma AtMost(t: nat, d: nat, given: nat)
    requires d > 0 && t * d <= given
    ensures t <= given
  {
    assert t * (d - 1) >= 0;
  }

  /** Any convergent is at most the reduced fraction's part: t * d <= g * p with d >= g gives t <= p. */
  lemma ConvergentBound(t: nat, d: nat, g: nat, p: nat)
    requires d >= g > 0 && t * d <= g * p
    ensures t <= p
  {
    if t > p {
      MulMono(p + 1, t, d);
      MulMono(g, d, p + 1);
      Distribute(g, p, 1);
    }
  }

  lemma {:induction false} GcdAtMost(n: nat, d: nat)
    requires d > 0
    ensures Gcd(n, d) <= d
    decreases d
  {
    if n % d > 0 {
      GcdAtMost(d, n % d);
    }
  }

  // rational_best_approximation
  method BestApproximation(givenNumerator: nat, givenDenominator: nat, maxNumerator: nat, maxDenominator: nat)
    returns (bestNumerator: nat, bestDenominator: nat)
    requires givenNumerator < U64 && givenDenominator < U64
    // The given fraction in lowest terms is returned exactly when both of its parts are in bounds.
    ensures givenDenominator > 0 ==>
      var g := Gcd(givenNumerator, givenDenominator);
      g > 0 && ((bestNumerator, bestDenominator) == (givenNumerator / g, givenDenominator / g)
           <==> givenNumerator / g <= maxNumerator && givenDenominator / g <= maxDenominator)
    ensures givenDenominator == 0 ==> (bestNumerator, bestDenominator) == (1, 0)
    ensures bestDenominator <= maxDenominator
      && (bestNumerator <= maxNumerator || (bestNumerator, bestDenominator) == (1, 0))
    // What the expansion stopped at; see NearestIff and ClosestIff for what that is worth.
    ensures var o := Expansion(givenNumerator, givenDenominator, maxNumerator, maxDenominator);
      (bestNumerator, bestDenominator) == (o.numerator, o.denominator)
  {
    hide Gcd, Next, Halt, Halts, LastRound, OutcomeAt, Coprime;
    var n: nat, d: nat := givenNumerator, givenDenominator;
    var n0: nat, d1: nat, n1: nat, d0: nat := 0, 0, 1, 1;
    ghost var g := Gcd(givenNumerator, givenDenominator);
    ghost var h := Halt(Step(n, d, n0, n1, d0, d1), maxNumerator, maxDenominator);
    FirstRoundIs(givenNumerator, givenDenominator, maxNumerator, maxDenominator);
    if givenDenominator > 0 {
      LowestTerms(givenNumerator, givenDenominator);
    }
    while true
      invariant givenNumerator == n1 * n + n0 * d
      invariant givenDenominator == d1 * n + d0 * d
      invariant Gcd(n, d) == g
      invariant d1 <= maxDenominator && (n1 <= maxNumerator || (n1 == 1 && d1 == 0))
      invariant givenDenominator == 0 ==> d == 0 && n1 == 1 && d1 == 0
      invariant h == Halt(Step(n, d, n0, n1, d0, d1), maxNumerator, maxDenominator)
      decreases d
    {
      RoundIs(Step(n, d, n0, n1, d0, d1), maxNumerator, maxDenominator);
      if d == 0 {
        if givenDenominator > 0 {
          Finish(givenNumerator, givenDenominator, n, n1, d1);
        }
        break;
      }
      ghost var tn, td := Expand(givenNumerator, givenDenominator, n, d, n0, n1, d0, d1);
      var a := n / d;
      n, d := d, n % d;
      assert a * n1 < U64 && n0 + a * n1 < U64;
      var t := n0 + a * n1;
      if t > maxNumerator {
        break;
      }
      n0, n1 := n1, t;
      assert a * d1 < U64 && d0 + a * d1 < U64;
      t := d0 + a * d1;
      if t > maxDenominator {
        break;
      }
      d0, d1 := d1, t;
    }
    return n1, d1;
  }

  // ---- Where the expansion stops ----

  /** The loop's variables: the fraction still to be expanded, and the last two convergents. */
  datatype Step = Step(n: nat, d: nat, n0: nat, n1: nat, d0: nat, d1: nat)

  /** It came to an end, or the next convergent's numerator, or its denominator, was too large. */
  datatype Stop = Complete | AtNumerator | AtDenominator

  /** Why it stopped, what it returned, and the numerator of the last convergent within both bounds. */
  datatype Outcome = Outcome(stop: Stop, numerator: nat, denominator: nat, last: nat)

  function Next(s: Step): Step
    requires s.d > 0
  {
    var a: nat := s.n / s.d;
    Step(s.d, s.n % s.d, s.n1, s.n0 + a * s.n1, s.d1, s.d0 + a * s.d1)
  }

  predicate Halts(s: Step, maxN: nat, maxD: nat) {
    s.d == 0 || Next(s).n1 > maxN || Next(s).d1 > maxD
  }

  /** The round in which the loop is left. */
  function Halt(s: Step, maxN: nat, maxD: nat): Step
    decreases s.d
  {
    if Halts(s, maxN, maxD) then s else Halt(Next(s), maxN, maxD)
  }

  function OutcomeAt(h: Step, maxN: nat, maxD: nat): Outcome {
    if h.d == 0 then Outcome(Complete, h.n1, h.d1, h.n1)
    else if Next(h).n1 > maxN then Outcome(AtNumerator, h.n1, h.d1, h.n1)
    else Outcome(AtDenominator, Next(h).n1, h.d1, h.n1)
  }

  function LastRound(givenN: nat, givenD: nat, maxN: nat, maxD: nat): Step {
    Halt(Step(givenN, givenD, 0, 1, 1, 0), maxN, maxD)
  }

  function Expansion(givenN: nat, givenD: nat, maxN: nat, maxD: nat): Outcome {
    OutcomeAt(LastRound(givenN, givenD, maxN, maxD), maxN, maxD)
  }

  lemma FirstRoundIs(givenN: nat, givenD: nat, maxN: nat, maxD: nat)
    ensures LastRound(givenN, givenD, maxN, maxD) == Halt(Step(givenN, givenD, 0, 1, 1, 0), maxN, maxD)
  {}

  /** One round, as the loop takes it. */
  lemma RoundIs(s: Step, maxN: nat, maxD: nat)
    ensures s.d == 0 ==> Halt(s, maxN, maxD) == s && OutcomeAt(s, maxN, maxD) == Outcome(Complete, s.n1, s.d1, s.n1)
    ensures s.d > 0 ==>
      var a: nat := s.n / s.d;
      var tn, td := s.n0 + a * s.n1, s.d0 + a * s.d1;
      if tn > maxN then
        Halt(s, maxN, maxD) == s && OutcomeAt(s, maxN, maxD) == Outcome(AtNumerator, s.n1, s.d1, s.n1)
      else if td > maxD then
        Halt(s, maxN, maxD) == s && OutcomeAt(s, maxN, maxD) == Outcome(AtDenominator, tn, s.d1, s.n1)
      else Halt(s, maxN, maxD) == Halt(Step(s.d, s.n % s.d, s.n1, tn, s.d1, td), maxN, maxD)
  {}

  /** How far x/y is from the given fraction, times both denominators. */
  function Off(givenN: int, givenD: int, x: int, y: int): nat {
    Abs(givenN * y - x * givenD)
  }

  function Abs(x: int): nat {
    if x < 0 then -x else x
  }

  /** What every round keeps: the given fraction in terms of the last two convergents, whose
      determinant is 1 or -1, and an expansion that is under way. */
  ghost predicate Sound(s: Step, givenN: nat, givenD: nat, sign: int) {
    && givenN == s.n1 * s.n + s.n0 * s.d && givenD == s.d1 * s.n + s.d0 * s.d
    && s.n1 * s.d0 - s.n0 * s.d1 == sign && (sign == 1 || sign == -1)
    && UnderWay(s)
  }

  predicate UnderWay(s: Step) {
    if s.d1 == 0 then s.d0 == 1 && s.n0 == 0 && s.n1 == 1 else s.d <= s.n && s.d0 <= s.d1
  }

  lemma NextSound(s: Step, givenN: nat, givenD: nat, sign: int)
    requires Sound(s, givenN, givenD, sign) && s.d > 0
    ensures Sound(Next(s), givenN, givenD, -sign)
  {
    hide UnderWay;
    var a: nat := s.n / s.d;
    ExpandStep(givenN, s.n, s.d, s.n0, s.n1);
    ExpandStep(givenD, s.n, s.d, s.d0, s.d1);
    Determinant(a, s.n0, s.n1, s.d0, s.d1);
    NextUnderWay(s);
  }

  lemma NextUnderWay(s: Step)
    requires UnderWay(s) && s.d > 0
    ensures UnderWay(Next(s))
  {
    Grows(s.n / s.d, s.d0, s.d1, s.n, s.d);
  }

  lemma Determinant(a: int, n0: int, n1: int, d0: int, d1: int)
    ensures (n0 + a * n1) * d1 - n1 * (d0 + a * d1) == -(n1 * d0 - n0 * d1)
  {
    assert (a * n1) * d1 == n1 * (a * d1);
  }

  lemma Grows(a: nat, d0: nat, d1: nat, n: nat, d: nat)
    requires d > 0 && a == n / d && (if d1 == 0 then d0 == 1 else d <= n)
    ensures d0 + a * d1 > 0 && d1 <= d0 + a * d1
  {
    if d1 > 0 {
      DivMod(n, d);
      assert a >= 1;
      MulBounds(d1, a);
    }
  }

  /** A pair (x, y) as u times one convergent plus v times the next, with u and v of opposite signs (or v
      zero), is no nearer than the first. */
  lemma Combination(d: nat, r: nat, u: int, v: int, sign: int)
    requires sign == 1 || sign == -1
    requires u != 0 && ((u > 0 && v <= 0) || (u < 0 && v >= 0))
    ensures Abs(sign * (d * u - r * v)) >= d
  {
    if u > 0 {
      MulBounds0(d, u);
      assert r * v <= 0;
    } else {
      MulBounds0(d, -u);
      assert d * u == -(d * -u);
      assert r * v >= 0;
    }
  }

  lemma MulBounds0(d: nat, u: int)
    requires u >= 1
    ensures d * u >= d
  {
    assert d * (u - 1) >= 0;
  }

  /** The coordinates of a pair with respect to two neighbouring convergents. */
  lemma Coordinates(s: Step, givenN: nat, givenD: nat, sign: int, x: int, y: int) returns (u: int, v: int)
    requires Sound(s, givenN, givenD, sign)
    ensures x == u * s.n0 + v * s.n1 && y == u * s.d0 + v * s.d1
    ensures givenN * y - x * givenD == sign * (s.n * u - s.d * v)
  {
    u, v := sign * (s.n1 * y - s.d1 * x), sign * (s.d0 * x - s.n0 * y);
    Solve(s.n0, s.n1, s.d0, s.d1, sign, x, y);
    Expanded(s.n, s.d, s.n0, s.n1, s.d0, s.d1, x, y);
    assert sign * sign == 1;
    Pull(sign, s.n, s.d, s.n1 * y - s.d1 * x, s.d0 * x - s.n0 * y);
  }

  lemma Pull(c: int, n: int, d: int, p: int, q: int)
    ensures c * (n * (c * p) - d * (c * q)) == (c * c) * (n * p - d * q)
  {
    assert n * (c * p) == c * (n * p) && d * (c * q) == c * (d * q);
    assert c * (c * (n * p) - c * (d * q)) == (c * c) * (n * p) - (c * c) * (d * q);
  }

  lemma Solve(n0: int, n1: int, d0: int, d1: int, sign: int, x: int, y: int)
    requires n1 * d0 - n0 * d1 == sign && sign * sign == 1
    ensures x == sign * (n1 * y - d1 * x) * n0 + sign * (d0 * x - n0 * y) * n1
    ensures y == sign * (n1 * y - d1 * x) * d0 + sign * (d0 * x - n0 * y) * d1
  {
    var p, q := n1 * y - d1 * x, d0 * x - n0 * y;
    Cross(n0, n1, d0, d1, x, y);
    Pulled(sign, p, q, n0, n1, x);
    Pulled(sign, p, q, d0, d1, y);
  }

  lemma Pulled(sign: int, p: int, q: int, a: int, b: int, x: int)
    requires p * a + q * b == sign * x && sign * sign == 1
    ensures x == sign * p * a + sign * q * b
  {
    Associate(sign, p, a);
    Associate(sign, q, b);
    Distribute(sign, p * a, q * b);
    Associate(sign, sign, x);
  }

  lemma Cross(n0: int, n1: int, d0: int, d1: int, x: int, y: int)
    ensures (n1 * y - d1 * x) * n0 + (d0 * x - n0 * y) * n1 == (n1 * d0 - n0 * d1) * x
    ensures (n1 * y - d1 * x) * d0 + (d0 * x - n0 * y) * d1 == (n1 * d0 - n0 * d1) * y
  {
    assert (n1 * y) * n0 == (n0 * y) * n1 && (d1 * x) * n0 == (n0 * d1) * x && (d0 * x) * n1 == (n1 * d0) * x;
    assert (d1 * x) * d0 == (d0 * x) * d1 && (n1 * y) * d0 == (n1 * d0) * y && (n0 * y) * d1 == (n0 * d1) * y;
  }

  lemma Expanded(n: int, d: int, n0: int, n1: int, d0: int, d1: int, x: int, y: int)
    ensures (n1 * n + n0 * d) * y - x * (d1 * n + d0 * d) == n * (n1 * y - d1 * x) - d * (d0 * x - n0 * y)
  {
    assert (n1 * n) * y == n * (n1 * y) && (n0 * d) * y == d * (n0 * y);
    assert x * (d1 * n) == n * (d1 * x) && x * (d0 * d) == d * (d0 * x);
  }

  lemma SignsByFirst(u: int, v: int, p: nat, p': nat, q: nat, q': nat, x: nat, y: nat)
    requires x == u * p + v * p' && y == u * q + v * q' && x < p' && y > 0
    ensures (u > 0 && v <= 0) || (u < 0 && v >= 0)
  {
    MulSign(u, p);
    MulSign(u, q);
    if v > 0 {
      MulBounds(p', v);
    } else if v < 0 {
      MulBounds(p', v);
    }
  }

  lemma MulSign(u: int, p: nat)
    ensures (u * p > 0 ==> u > 0) && (u * p < 0 ==> u < 0)
  {
    assert u >= 0 ==> u * p >= 0;
    assert u <= 0 ==> u * p <= 0;
  }

  /** Between two neighbouring convergents p/q and p'/q': no fraction with a numerator below p' or a
      denominator below q' is nearer than p/q, in the sense of `Off`. */
  lemma NoneNearer(t: Step, givenN: nat, givenD: nat, sign: int, x: nat, y: nat)
    requires Sound(t, givenN, givenD, sign) && y > 0 && (x < t.n1 || y < t.d1)
    ensures Off(givenN, givenD, x, y) >= t.n
  {
    hide Sound, Abs;
    var u, v := Coordinates(t, givenN, givenD, sign, x, y);
    if x < t.n1 {
      SignsByFirst(u, v, t.n0, t.n1, t.d0, t.d1, x, y);
    } else {
      SignsBySecond(u, v, t.d0, t.d1, y);
    }
    SignIs(t, givenN, givenD, sign);
    Combination(t.n, t.d, u, v, sign);
  }

  lemma SignsBySecond(u: int, v: int, q: nat, q': nat, y: nat)
    requires y == u * q + v * q' && 0 < y < q'
    ensures (u > 0 && v <= 0) || (u < 0 && v >= 0)
  {
    MulSign(u, q);
    if v != 0 {
      MulBounds(q', v);
    }
  }

  lemma SignIs(t: Step, givenN: nat, givenD: nat, sign: int)
    requires Sound(t, givenN, givenD, sign)
    ensures sign == 1 || sign == -1
    ensures givenN * t.d0 - t.n0 * givenD == sign * t.n && Off(givenN, givenD, t.n0, t.d0) == t.n
  {
    Expanded(t.n, t.d, t.n0, t.n1, t.d0, t.d1, t.n0, t.d0);
    assert t.d0 * t.n0 - t.n0 * t.d0 == 0;
    assert t.n1 * t.d0 - t.d1 * t.n0 == sign;
    assert t.n * sign == sign * t.n;
  }

  /** The returned fraction when the next denominator is too large: the next numerator over the last
      denominator. It is never nearer than the last convergent, and as near only in a tie. */
  lemma MixedFraction(t: Step, givenN: nat, givenD: nat, sign: int)
    requires Sound(t, givenN, givenD, sign) && t.n0 <= t.n1 && t.d1 >= 2 && givenD > 0
    ensures var last, mixed := Off(givenN, givenD, t.n0, t.d0), Off(givenN, givenD, t.n1, t.d0);
      && last <= mixed
      && (last == mixed <==> t.n1 == t.n0 || 2 * (givenN * t.d0) == (t.n0 + t.n1) * givenD)
  {
    SignIs(t, givenN, givenD, sign);
    var k := t.n1 - t.n0;
    Spread(givenN * t.d0, t.n0, t.n1, givenD);
    TwiceBelow(t, givenN, givenD, sign);
    if k > 0 {
      MulBounds(givenD, k);
    }
    TwoSides(givenN * t.d0 - t.n0 * givenD, givenD * k, t.n);
  }

  lemma Spread(m: int, p: int, p': int, d: int)
    ensures m - p' * d == (m - p * d) - d * (p' - p) && (p + p') * d == 2 * (p * d) + d * (p' - p)
  {}

  lemma TwiceBelow(t: Step, givenN: nat, givenD: nat, sign: int)
    requires Sound(t, givenN, givenD, sign) && t.d1 >= 2
    ensures givenD >= 2 * t.n
  {
    MulMono(2, t.d1, t.n);
    MulNonNeg(t.d0, t.d);
  }

  lemma TwoSides(e: int, b: nat, n: nat)
    requires Abs(e) == n && (b == 0 || b >= 2 * n)
    ensures Abs(e) <= Abs(e - b) && (Abs(e) == Abs(e - b) <==> b == 0 || 2 * e == b)
  {}

  /** What a stop is worth, for all fractions x/y. */
  ghost predicate Worth(o: Outcome, givenN: nat, givenD: nat, maxN: nat, maxD: nat) {
    match o.stop
    case Complete => Off(givenN, givenD, o.numerator, o.denominator) == 0
    case AtNumerator =>
      forall x: nat, y: nat :: 0 < y && x <= maxN ==>
        Off(givenN, givenD, x, y) >= Off(givenN, givenD, o.numerator, o.denominator)
    case AtDenominator => maxD > 0 ==>
      && 0 < o.denominator <= maxD && o.last <= o.numerator <= maxN
      && (forall x: nat, y: nat :: 0 < y <= maxD ==>
            Off(givenN, givenD, x, y) >= Off(givenN, givenD, o.last, o.denominator))
      && Off(givenN, givenD, o.numerator, o.denominator) >= Off(givenN, givenD, o.last, o.denominator)
      && (Off(givenN, givenD, o.numerator, o.denominator) == Off(givenN, givenD, o.last, o.denominator) <==>
            o.numerator == o.last || 2 * (givenN * o.denominator) == (o.last + o.numerator) * givenD)
  }

  /** The loop is left in a sound round whose last convergent is within bounds. */
  lemma {:induction false} HaltSound(s: Step, givenN: nat, givenD: nat, sign: int, maxN: nat,
      maxD: nat) returns (sign': int)
    requires Sound(s, givenN, givenD, sign) && s.d1 <= maxD && (s.n1 <= maxN || s.d1 == 0)
    ensures var h := Halt(s, maxN, maxD);
      Halts(h, maxN, maxD) && Sound(h, givenN, givenD, sign') && h.d1 <= maxD && (h.n1 <= maxN || h.d1 == 0)
    decreases s.d
  {
    if Halts(s, maxN, maxD) {
      sign' := sign;
    } else {
      NextSound(s, givenN, givenD, sign);
      sign' := HaltSound(Next(s), givenN, givenD, -sign, maxN, maxD);
    }
  }

  lemma LastRoundSound(givenN: nat, givenD: nat, maxN: nat, maxD: nat) returns (sign: int)
    ensures var h := LastRound(givenN, givenD, maxN, maxD);
      Halts(h, maxN, maxD) && Sound(h, givenN, givenD, sign) && h.d1 <= maxD && (h.n1 <= maxN || h.d1 == 0)
  {
    sign := HaltSound(Step(givenN, givenD, 0, 1, 1, 0), givenN, givenD, 1, maxN, maxD);
  }

  lemma WorthAt(h: Step, givenN: nat, givenD: nat, sign: int, maxN: nat, maxD: nat)
    requires Sound(h, givenN, givenD, sign) && givenD > 0 && h.d1 <= maxD && (h.n1 <= maxN || h.d1 == 0)
    requires Halts(h, maxN, maxD)
    ensures Worth(OutcomeAt(h, maxN, maxD), givenN, givenD, maxN, maxD)
  {
    hide Off;
    if h.d == 0 {
      ExactEnd(h, givenN, givenD, sign);
    } else {
      var t := Next(h);
      NextSound(h, givenN, givenD, sign);
      SignIs(t, givenN, givenD, -sign);
      if t.n1 > maxN {
        forall x: nat, y: nat | 0 < y && x <= maxN ensures Off(givenN, givenD, x, y) >= t.n {
          NoneNearer(t, givenN, givenD, -sign, x, y);
        }
      } else {
        forall x: nat, y: nat | 0 < y <= maxD ensures Off(givenN, givenD, x, y) >= t.n {
          NoneNearer(t, givenN, givenD, -sign, x, y);
        }
        if maxD > 0 {
          NumeratorGrows(h);
          MixedFraction(t, givenN, givenD, -sign);
        }
      }
    }
  }

  lemma ExactEnd(s: Step, givenN: nat, givenD: nat, sign: int)
    requires Sound(s, givenN, givenD, sign) && s.d == 0
    ensures Off(givenN, givenD, s.n1, s.d1) == 0
  {
    assert (s.n1 * s.n) * s.d1 == s.n1 * (s.d1 * s.n);
  }

  lemma NumeratorGrows(s: Step)
    requires s.d > 0 && (if s.d1 == 0 then s.d0 == 1 else s.d <= s.n) && Next(s).d1 >= 2
    ensures s.d1 > 0 && Next(s).n1 >= s.n1
  {
    var a: nat := s.n / s.d;
    assert s.d1 == 0 ==> a * s.d1 == 0;
    DivMod(s.n, s.d);
    assert a >= 1;
    MulBounds0(s.n1, a);
    assert a * s.n1 == s.n1 * a;
  }

  /** No fraction within both bounds is nearer, in the sense of `Off`. */
  ghost predicate Nearest(o: Outcome, givenN: nat, givenD: nat, maxN: nat, maxD: nat) {
    forall x: nat, y: nat :: 0 < y <= maxD && x <= maxN ==>
      Off(givenN, givenD, x, y) >= Off(givenN, givenD, o.numerator, o.denominator)
  }

  /** For every input: the result is the nearest fraction within the bounds (a best approximation of the
      second kind) exactly when the denominator bound did not stop the expansion, or left no choice, or
      the mixed fraction it then returns happens to tie. */
  lemma NearestIff(givenN: nat, givenD: nat, maxN: nat, maxD: nat)
    ensures var o := Expansion(givenN, givenD, maxN, maxD);
      && (givenD > 0 ==> Worth(o, givenN, givenD, maxN, maxD))
      && (Nearest(o, givenN, givenD, maxN, maxD) <==>
            || o.stop != AtDenominator || maxD == 0 || o.numerator == o.last
            || 2 * (givenN * o.denominator) == (o.last + o.numerator) * givenD)
  {
    hide Off;
    var o := Expansion(givenN, givenD, maxN, maxD);
    if givenD > 0 {
      var sign := LastRoundSound(givenN, givenD, maxN, maxD);
      WorthAt(LastRound(givenN, givenD, maxN, maxD), givenN, givenD, sign, maxN, maxD);
      if o.stop == AtDenominator && maxD > 0 {
        assert o.last <= maxN && 0 < o.denominator <= maxD;
      }
    } else {
      NothingGiven(givenN);
    }
  }

  lemma NothingGiven(givenN: nat)
    ensures Off(givenN, 0, 1, 0) == 0
  {}

  // ---- Closest in ordinary distance ----

  /** p/q is no farther from the given fraction than x/y. */
  predicate NoFarther(givenN: nat, givenD: nat, p: nat, q: nat, x: nat, y: nat) {
    Off(givenN, givenD, p, q) * y <= Off(givenN, givenD, x, y) * q
  }

  ghost predicate Closest(o: Outcome, givenN: nat, givenD: nat, maxN: nat, maxD: nat) {
    && o.denominator > 0
    && forall x: nat, y: nat :: x <= maxN && 0 < y <= maxD ==>
         NoFarther(givenN, givenD, o.numerator, o.denominator, x, y)
  }

  /** The result is the closest among the fractions whose denominator is no larger than its own. */
  ghost predicate ClosestOfItsSize(o: Outcome, givenN: nat, givenD: nat, maxN: nat) {
    forall x: nat, y: nat :: x <= maxN && 0 < y <= o.denominator ==>
      NoFarther(givenN, givenD, o.numerator, o.denominator, x, y)
  }

  /** For every input: being nearest in the sense of `Off` among all fractions within the bounds comes to
      being closest in ordinary distance among those with no larger denominator. NearestIff says when. */
  lemma OwnSizeIff(givenN: nat, givenD: nat, maxN: nat, maxD: nat)
    ensures var o := Expansion(givenN, givenD, maxN, maxD);
      ClosestOfItsSize(o, givenN, givenD, maxN) <==> Nearest(o, givenN, givenD, maxN, maxD)
  {
    hide Off, Halt, NoFarther;
    var o := Expansion(givenN, givenD, maxN, maxD);
    var sign := LastRoundSound(givenN, givenD, maxN, maxD);
    NearestIff(givenN, givenD, maxN, maxD);
    if Nearest(o, givenN, givenD, maxN, maxD) {
      forall x: nat, y: nat | x <= maxN && 0 < y <= o.denominator
        ensures NoFarther(givenN, givenD, o.numerator, o.denominator, x, y)
      {
        ClosestBelow(givenN, givenD, o.numerator, o.denominator, x, y);
      }
    } else if givenD > 0 {
      StrictlyFarther(givenN, givenD, o.numerator, o.last, o.denominator);
    } else {
      NothingGiven(givenN);
    }
  }

  lemma ClosestBelow(givenN: nat, givenD: nat, p: nat, q: nat, x: nat, y: nat)
    requires Off(givenN, givenD, p, q) <= Off(givenN, givenD, x, y) && y <= q
    ensures NoFarther(givenN, givenD, p, q, x, y)
  {
    hide Off;
    var a, b := Off(givenN, givenD, p, q), Off(givenN, givenD, x, y);
    MulMono(y, q, a);
    MulMono(a, b, q);
  }

  lemma StrictlyFarther(givenN: nat, givenD: nat, p: nat, x: nat, q: nat)
    requires q > 0
    ensures NoFarther(givenN, givenD, p, q, x, q) <==> Off(givenN, givenD, p, q) <= Off(givenN, givenD, x, q)
  {
    hide Off;
    SameFactor(Off(givenN, givenD, p, q), Off(givenN, givenD, x, q), q);
  }

  lemma SameFactor(a: nat, b: nat, q: nat)
    requires q > 0
    ensures a * q <= b * q <==> a <= b
  {
    if a <= b {
      MulMono(a, b, q);
    } else {
      MulMono(b + 1, a, q);
      Distribute(q, b, 1);
    }
  }

  /** The c-th fraction between the last two convergents is within bounds. */
  predicate SemiFits(h: Step, c: nat, maxN: nat, maxD: nat) {
    h.n0 + c * h.n1 <= maxN && h.d0 + c * h.d1 <= maxD
  }

  /** The last of them that is, from c on. */
  function LastSemi(h: Step, c: nat, maxN: nat, maxD: nat): (r: nat)
    requires h.d > 0 && SemiFits(h, c, maxN, maxD) && c < h.n / h.d && !SemiFits(h, h.n / h.d, maxN, maxD)
    ensures SemiFits(h, r, maxN, maxD) && !SemiFits(h, r + 1, maxN, maxD) && r < h.n / h.d
    decreases h.n / h.d - c
  {
    if SemiFits(h, c + 1, maxN, maxD) then LastSemi(h, c + 1, maxN, maxD) else c
  }

  /** Not on the side of the next convergent: no closer than the last one. */
  lemma FarSide(h: Step, givenN: nat, givenD: nat, sign: int, u: int, v: int, x: nat, y: nat)
    requires Sound(h, givenN, givenD, sign) && y > 0 && (u <= 0 || v < 0)
    requires x == u * h.n0 + v * h.n1 && y == u * h.d0 + v * h.d1
    requires givenN * y - x * givenD == sign * (h.n * u - h.d * v)
    ensures h.d1 > 0 && h.d * y <= Off(givenN, givenD, x, y) * h.d1
  {
    hide Sound;
    SoundFacts(h, givenN, givenD, sign);
    if u <= 0 {
      var w := -u;
      Negate(w, h.d0);
      MulNonNeg(w, h.d0);
      PositiveProduct(v, h.d1);
      FarSideFirst(h.n, h.d, w, v, h.d0, h.d1, y);
      Negate(h.n, w);
      MulNonNeg(h.n, w);
      MulNonNeg(h.d, v);
      Negate(sign, h.n * w + h.d * v);
      Product(-sign, h.n * w + h.d * v);
    } else {
      var z := -v;
      Negate(z, h.d1);
      NotInfinite(h, u, v, x);
      FarSideSecond(h.n, h.d, u, z, h.d0, h.d1, y);
      Negate(h.d, z);
      MulNonNeg(h.n, u);
      MulNonNeg(h.d, z);
      Product(sign, h.n * u + h.d * z);
    }
  }

  lemma SoundFacts(h: Step, givenN: nat, givenD: nat, sign: int)
    requires Sound(h, givenN, givenD, sign)
    ensures (sign == 1 || sign == -1) && UnderWay(h)
  {}

  lemma NotInfinite(h: Step, u: int, v: int, x: nat)
    requires UnderWay(h) && v < 0 && x == u * h.n0 + v * h.n1
    ensures h.d1 > 0
  {}

  lemma FarSideFirst(n: nat, d: nat, u: nat, v: nat, d0: nat, d1: nat, y: nat)
    requires v > 0 && y == v * d1 - u * d0
    ensures d * y <= (n * u + d * v) * d1
  {
    MulNonNeg(u, d0);
    MulMono(y, v * d1, d);
    Associate(d, v, d1);
    MulNonNeg(n, u);
    MulNonNeg(n * u, d1);
    Distribute(d1, n * u, d * v);
  }

  lemma FarSideSecond(n: nat, d: nat, u: nat, v: nat, d0: nat, d1: nat, y: nat)
    requires u > 0 && d <= n && d0 <= d1 && y == u * d0 - v * d1
    ensures d * y <= (n * u + d * v) * d1
  {
    MulNonNeg(v, d1);
    MulMono(y, u * d0, d);
    Associate(d, u, d0);
    MulNonNeg(d, u);
    MulMono(d0, d1, d * u);
    MulMono(d, n, u);
    MulMono(d * u, n * u, d1);
    MulNonNeg(d, v);
    MulNonNeg(d * v, d1);
    Distribute(d1, n * u, d * v);
  }

  /** On the side of the next convergent: no closer than the last fraction between that fits. */
  lemma NearSide(h: Step, givenN: nat, givenD: nat, sign: int, c: nat, u: int, v: int, x: nat, y: nat)
    requires Sound(h, givenN, givenD, sign) && h.d > 0 && u > 0 && v >= 0 && y > 0
    requires x == u * h.n0 + v * h.n1 && y == u * h.d0 + v * h.d1
    requires givenN * y - x * givenD == sign * (h.n * u - h.d * v)
    requires v <= u * c && c < h.n / h.d
    ensures h.d0 + c * h.d1 > 0
    ensures NoFarther(givenN, givenD, h.n0 + c * h.n1, h.d0 + c * h.d1, x, y)
  {
    hide Sound, Off;
    SoundFacts(h, givenN, givenD, sign);
    StillToGo(h.n, h.d, c, u, v);
    SemiOff(h, givenN, givenD, sign, c);
    OffIs(givenN, givenD, sign, h.n0 + c * h.n1, h.d0 + c * h.d1, h.n - h.d * c);
    OffIs(givenN, givenD, sign, x, y, h.n * u - h.d * v);
    MulNonNeg(h.n, h.d1);
    MulNonNeg(h.d, h.d0);
    SemiMonotone(h.n, h.d, h.d0, h.d1, u, v, c);
    SemiDenominator(h.d0, h.d1, u, v, c);
  }

  lemma OffIs(givenN: nat, givenD: nat, sign: int, x: nat, y: nat, e: int)
    requires (sign == 1 || sign == -1) && e >= 0 && givenN * y - x * givenD == sign * e
    ensures Off(givenN, givenD, x, y) == e
  {
    Product(sign, e);
  }

  lemma Product(sign: int, e: int)
    requires (sign == 1 || sign == -1) && e >= 0
    ensures Abs(sign * e) == e
  {}

  lemma StillToGo(n: nat, d: nat, c: nat, u: int, v: int)
    requires d > 0 && c < n / d && u > 0 && v <= u * c
    ensures d * c <= n && d * v <= n * u
  {
    DivMod(n, d);
    MulMono(c, n / d, d);
    MulMono(v, u * c, d);
    MulMono(d * c, n, u);
    Commute(u, c);
    Associate(d, c, u);
  }

  lemma SemiDenominator(d0: nat, d1: nat, u: int, v: int, c: nat)
    requires u > 0 && v <= u * c && u * d0 + v * d1 > 0
    ensures d0 + c * d1 > 0
  {
    assert (u * c - v) * d1 >= 0;
    assert u * (c * d1) == (u * c) * d1;
    MulSign(d0 + c * d1, u);
    assert (d0 + c * d1) * u == u * d0 + u * (c * d1);
  }

  lemma SemiOff(h: Step, givenN: nat, givenD: nat, sign: int, c: nat)
    requires Sound(h, givenN, givenD, sign)
    ensures var x, y := h.n0 + c * h.n1, h.d0 + c * h.d1;
      givenN * y - x * givenD == sign * (h.n - h.d * c)
  {
    var x, y := h.n0 + c * h.n1, h.d0 + c * h.d1;
    Expanded(h.n, h.d, h.n0, h.n1, h.d0, h.d1, x, y);
    SemiCross(h.n0, h.n1, h.d0, h.d1, c);
    Signed(h.n, h.d, sign, c, h.n1 * y - h.d1 * x, h.d0 * x - h.n0 * y);
  }

  lemma Signed(n: int, d: int, sign: int, c: int, p: int, q: int)
    requires p == sign && q == c * sign
    ensures n * p - d * q == sign * (n - d * c)
  {
    assert d * (c * sign) == sign * (d * c);
  }

  lemma SemiCross(n0: int, n1: int, d0: int, d1: int, c: int)
    ensures var x, y := n0 + c * n1, d0 + c * d1;
      n1 * y - d1 * x == n1 * d0 - n0 * d1 && d0 * x - n0 * y == c * (n1 * d0 - n0 * d1)
  {
    assert n1 * (c * d1) == d1 * (c * n1);
    assert d0 * (c * n1) == c * (n1 * d0) && n0 * (c * d1) == c * (n0 * d1);
  }

  lemma SemiMonotone(n: int, d: int, d0: int, d1: int, u: int, v: int, c: int)
    requires v <= u * c && n * d1 + d * d0 >= 0
    ensures (n - d * c) * (u * d0 + v * d1) <= (n * u - d * v) * (d0 + c * d1)
  {
    var k, m := u * c - v, n * d1 + d * d0;
    MulNonNeg(k, m);
    LeftSide(n, d, d0, d1, u, v, c);
    RightSide(n, d, d0, d1, u, v, c);
    Distribute(m, u * c, -v);
    Negate(v, m);
    Distribute(u * c, n * d1, d * d0);
    Distribute(v, n * d1, d * d0);
  }

  lemma LeftSide(n: int, d: int, d0: int, d1: int, u: int, v: int, c: int)
    ensures (n - d * c) * (u * d0 + v * d1) == n * (u * d0) + v * (n * d1) - (u * c) * (d * d0) - (v * c) * (d * d1)
  {
    var y := u * d0 + v * d1;
    assert (n - d * c) * y == n * y - (d * c) * y;
    assert n * y == n * (u * d0) + v * (n * d1);
    assert (d * c) * y == (d * c) * (u * d0) + (d * c) * (v * d1);
    assert (d * c) * (u * d0) == (u * c) * (d * d0) && (d * c) * (v * d1) == (v * c) * (d * d1);
  }

  lemma RightSide(n: int, d: int, d0: int, d1: int, u: int, v: int, c: int)
    ensures (n * u - d * v) * (d0 + c * d1) == n * (u * d0) + (u * c) * (n * d1) - v * (d * d0) - (v * c) * (d * d1)
  {
    var q := d0 + c * d1;
    assert (n * u - d * v) * q == (n * u) * q - (d * v) * q;
    assert (n * u) * q == n * (u * d0) + (u * c) * (n * d1);
    assert (d * v) * q == v * (d * d0) + (v * c) * (d * d1);
  }

  /** Between in whole multiples: a fraction beyond the last one that fits does not fit either. */
  lemma SemiBound(h: Step, c: nat, u: int, v: int, maxN: nat, maxD: nat)
    requires u > 0 && v >= 0 && u * h.n0 + v * h.n1 <= maxN && u * h.d0 + v * h.d1 <= maxD
    ensures SemiFits(h, 0, maxN, maxD)
    ensures v > u * c ==> SemiFits(h, c + 1, maxN, maxD)
  {
    AtLeastOnce(u, v, c, h.n0, h.n1);
    AtLeastOnce(u, v, c, h.d0, h.d1);
    assert 0 * h.n1 == 0 && 0 * h.d1 == 0;
  }

  lemma AtLeastOnce(u: int, v: int, c: nat, x0: nat, x1: nat)
    requires u > 0 && v >= 0
    ensures x0 <= u * x0 + v * x1
    ensures v > u * c ==> x0 + (c + 1) * x1 <= u * x0 + v * x1
  {
    MulMono(1, u, x0);
    MulNonNeg(v, x1);
    if v > u * c {
      MulMono(1, u, c);
      MulMono(c + 1, v, x1);
    }
  }

  /** The fraction between the last two convergents that comes closest to the bounds, if any fits. */
  ghost predicate SemiBeats(h: Step, givenN: nat, givenD: nat, maxN: nat, maxD: nat, x: nat, y: nat)
    requires h.d > 0 && 0 < h.n / h.d ==> !SemiFits(h, h.n / h.d, maxN, maxD)
  {
    && h.d > 0 && SemiFits(h, 0, maxN, maxD) && 0 < h.n / h.d
    && var c := LastSemi(h, 0, maxN, maxD);
    h.d0 + c * h.d1 > 0 && NoFarther(givenN, givenD, h.n0 + c * h.n1, h.d0 + c * h.d1, x, y)
  }

  /** Every fraction within the bounds is beaten by the last convergent or by the last fraction between
      it and the next one that fits. */
  lemma TwoCandidates(h: Step, givenN: nat, givenD: nat, sign: int, maxN: nat, maxD: nat, x: nat, y: nat)
    requires Sound(h, givenN, givenD, sign) && h.d > 0 && !SemiFits(h, h.n / h.d, maxN, maxD)
    requires x <= maxN && 0 < y <= maxD
    ensures (h.d1 > 0 && NoFarther(givenN, givenD, h.n1, h.d1, x, y)) || SemiBeats(h, givenN, givenD, maxN, maxD, x, y)
  {
    hide Sound, Off, LastSemi, SemiFits;
    var u, v := Coordinates(h, givenN, givenD, sign, x, y);
    if u <= 0 || v < 0 {
      FarSide(h, givenN, givenD, sign, u, v, x, y);
      LastOff(h, givenN, givenD, sign);
    } else {
      var a: nat := h.n / h.d;
      SemiBound(h, 0, u, v, maxN, maxD);
      assert 0 < a;
      var c := LastSemi(h, 0, maxN, maxD);
      SemiBound(h, c, u, v, maxN, maxD);
      NearSide(h, givenN, givenD, sign, c, u, v, x, y);
    }
  }

  lemma LastOff(h: Step, givenN: nat, givenD: nat, sign: int)
    requires Sound(h, givenN, givenD, sign)
    ensures Off(givenN, givenD, h.n1, h.d1) == h.d
  {
    Expanded(h.n, h.d, h.n0, h.n1, h.d0, h.d1, h.n1, h.d1);
    assert h.n1 * h.d1 - h.d1 * h.n1 == 0;
    assert h.d0 * h.n1 - h.n0 * h.d1 == sign;
    assert h.n * 0 - h.d * sign == -(sign * h.d);
  }

  lemma Farther(givenN: nat, givenD: nat, p: nat, q: nat, s: nat, r: nat, x: nat, y: nat)
    requires r > 0 && NoFarther(givenN, givenD, p, q, s, r) && NoFarther(givenN, givenD, s, r, x, y)
    ensures NoFarther(givenN, givenD, p, q, x, y)
  {
    hide Off;
    Transitive(Off(givenN, givenD, p, q), q, Off(givenN, givenD, s, r), r, Off(givenN, givenD, x, y), y);
  }

  lemma Transitive(a: nat, q: nat, b: nat, r: nat, c: nat, y: nat)
    requires r > 0 && a * r <= b * q && b * y <= c * r
    ensures a * y <= c * q
  {
    assert (a * r) * y <= (b * q) * y;
    assert (b * y) * q <= (c * r) * q;
    assert (a * r) * y == r * (a * y) && (b * q) * y == (b * y) * q && (c * r) * q == r * (c * q);
    MulBounds(r, a * y - c * q);
    assert r * (a * y - c * q) == r * (a * y) - r * (c * q);
  }

  /** None of the fractions between the last convergent and the next that fit is closer than p/d1 at the
      last convergent's distance. */
  ghost predicate SemisNoCloser(h: Step, maxN: nat, maxD: nat)
    requires h.d > 0
  {
    forall c: nat :: c < h.n / h.d && SemiFits(h, c, maxN, maxD) && h.d0 + c * h.d1 > 0 ==>
      h.d * (h.d0 + c * h.d1) <= (h.n - h.d * c) * h.d1
  }

  /** For every input, by the last round: the result is the closest fraction within the bounds if and only
      if the expansion came to its end, or no fraction between the last convergent and the next that fits
      is closer, and, when the denominator bound stopped it, the returned mixed fraction is the last
      convergent or as near. */
  lemma ClosestIff(givenN: nat, givenD: nat, maxN: nat, maxD: nat)
    requires givenD > 0
    ensures var o, h := Expansion(givenN, givenD, maxN, maxD), LastRound(givenN, givenD, maxN, maxD);
      Closest(o, givenN, givenD, maxN, maxD) <==>
        || h.d == 0
        || (&& h.d1 > 0
            && (Next(h).n1 > maxN || o.numerator == h.n1 || 2 * (givenN * h.d1) == (h.n1 + o.numerator) * givenD)
            && SemisNoCloser(h, maxN, maxD))
  {
    hide Sound, Off, Halt, Halts, NoFarther, SemiFits, SemisNoCloser;
    var sign := LastRoundSound(givenN, givenD, maxN, maxD);
    var o, h := Expansion(givenN, givenD, maxN, maxD), LastRound(givenN, givenD, maxN, maxD);
    if h.d == 0 {
      ExactIsClosest(h, givenN, givenD, sign);
    } else if h.d1 > 0 {
      var p := o.numerator;
      LastOff(h, givenN, givenD, sign);
      StopOff(h, givenN, givenD, sign, maxN, maxD);
      NextTooLarge(h, maxN, maxD);
      if Off(givenN, givenD, p, h.d1) == h.d && SemisNoCloser(h, maxN, maxD) {
        forall x: nat, y: nat | x <= maxN && 0 < y <= maxD ensures NoFarther(givenN, givenD, p, h.d1, x, y) {
          CandidatesNoCloser(h, givenN, givenD, sign, maxN, maxD, p, x, y);
        }
      }
      if Closest(o, givenN, givenD, maxN, maxD) {
        StrictlyFarther(givenN, givenD, p, h.n1, h.d1);
        assert NoFarther(givenN, givenD, p, h.d1, h.n1, h.d1);
        NoneCloser(h, givenN, givenD, sign, maxN, maxD, p);
      }
    }
  }

  lemma NextTooLarge(h: Step, maxN: nat, maxD: nat)
    requires Halts(h, maxN, maxD) && h.d > 0
    ensures !SemiFits(h, h.n / h.d, maxN, maxD)
  {}

  /** The distance of what a stop returns: the last convergent's, or more. */
  lemma StopOff(h: Step, givenN: nat, givenD: nat, sign: int, maxN: nat, maxD: nat)
    requires Sound(h, givenN, givenD, sign) && givenD > 0 && 0 < h.d1 <= maxD && h.n1 <= maxN
    requires Halts(h, maxN, maxD) && h.d > 0
    ensures var p := OutcomeAt(h, maxN, maxD).numerator;
      && Off(givenN, givenD, p, h.d1) >= h.d
      && (Off(givenN, givenD, p, h.d1) == h.d <==>
            Next(h).n1 > maxN || p == h.n1 || 2 * (givenN * h.d1) == (h.n1 + p) * givenD)
  {
    hide Sound, Off, Halts;
    WorthAt(h, givenN, givenD, sign, maxN, maxD);
    LastOff(h, givenN, givenD, sign);
  }

  /** p/d1, as near as the last convergent, against the c-th fraction between. */
  lemma SemiCompare(h: Step, givenN: nat, givenD: nat, sign: int, p: nat, c: nat)
    requires Sound(h, givenN, givenD, sign) && h.d > 0 && c < h.n / h.d && Off(givenN, givenD, p, h.d1) == h.d
    ensures NoFarther(givenN, givenD, p, h.d1, h.n0 + c * h.n1, h.d0 + c * h.d1) <==>
      h.d * (h.d0 + c * h.d1) <= (h.n - h.d * c) * h.d1
  {
    hide Sound, Off;
    SoundFacts(h, givenN, givenD, sign);
    StillToGo(h.n, h.d, c, 1, c);
    SemiOff(h, givenN, givenD, sign, c);
    OffIs(givenN, givenD, sign, h.n0 + c * h.n1, h.d0 + c * h.d1, h.n - h.d * c);
  }

  lemma CandidatesNoCloser(h: Step, givenN: nat, givenD: nat, sign: int, maxN: nat, maxD: nat, p: nat, x: nat, y: nat)
    requires Sound(h, givenN, givenD, sign) && h.d > 0 && !SemiFits(h, h.n / h.d, maxN, maxD)
    requires Off(givenN, givenD, p, h.d1) == h.d && SemisNoCloser(h, maxN, maxD)
    requires x <= maxN && 0 < y <= maxD
    ensures NoFarther(givenN, givenD, p, h.d1, x, y)
  {
    hide Sound, Off, SemiFits;
    TwoCandidates(h, givenN, givenD, sign, maxN, maxD, x, y);
    if h.d1 > 0 && NoFarther(givenN, givenD, h.n1, h.d1, x, y) {
      LastOff(h, givenN, givenD, sign);
    } else {
      hide NoFarther;
      var c := LastSemi(h, 0, maxN, maxD);
      SemiCompare(h, givenN, givenD, sign, p, c);
      Farther(givenN, givenD, p, h.d1, h.n0 + c * h.n1, h.d0 + c * h.d1, x, y);
    }
  }

  lemma NoneCloser(h: Step, givenN: nat, givenD: nat, sign: int, maxN: nat, maxD: nat, p: nat)
    requires Sound(h, givenN, givenD, sign) && h.d > 0 && Off(givenN, givenD, p, h.d1) == h.d
    requires forall x: nat, y: nat :: x <= maxN && 0 < y <= maxD ==> NoFarther(givenN, givenD, p, h.d1, x, y)
    ensures SemisNoCloser(h, maxN, maxD)
  {
    hide Sound, Off, NoFarther;
    forall c: nat | c < h.n / h.d && SemiFits(h, c, maxN, maxD) && h.d0 + c * h.d1 > 0
      ensures h.d * (h.d0 + c * h.d1) <= (h.n - h.d * c) * h.d1
    {
      SemiCompare(h, givenN, givenD, sign, p, c);
    }
  }

  lemma ExactIsClosest(h: Step, givenN: nat, givenD: nat, sign: int)
    requires Sound(h, givenN, givenD, sign) && h.d == 0 && givenD > 0
    ensures h.d1 > 0 && forall x: nat, y: nat :: NoFarther(givenN, givenD, h.n1, h.d1, x, y)
  {
    ExactEnd(h, givenN, givenD, sign);
    assert h.d1 == 0 ==> h.d1 * h.n == 0;
    hide Off;
  }

  /** Inputs where it is not the closest fraction: for 22/7 with denominators up to 6 it returns 22/1
      although 3/1 is allowed, and for 1/3 with denominators up to 2 it returns 1/1 although 0/1 is. With
      numerators up to 21 it returns 3/1 for 22/7, although 19/6 is closer in ordinary distance. */
  lemma NotTheClosest()
    ensures Expansion(22, 7, 100, 6) == Outcome(AtDenominator, 22, 1, 3) && Off(22, 7, 3, 1) < Off(22, 7, 22, 1)
    ensures Expansion(1, 3, 5, 2) == Outcome(AtDenominator, 1, 1, 0) && Off(1, 3, 0, 1) < Off(1, 3, 1, 1)
    ensures Expansion(22, 7, 21, 6) == Outcome(AtNumerator, 3, 1, 3) && Off(22, 7, 19, 6) * 1 < Off(22, 7, 3, 1) * 6
  {
    hide Halt, Next;
    TwoRounds(Step(22, 7, 0, 1, 1, 0), Step(7, 1, 1, 3, 0, 1), Step(1, 0, 3, 22, 1, 7), 100, 6) by { Rounds(); }
    TwoRounds(Step(22, 7, 0, 1, 1, 0), Step(7, 1, 1, 3, 0, 1), Step(1, 0, 3, 22, 1, 7), 21, 6) by { Rounds(); }
    TwoRounds(Step(1, 3, 0, 1, 1, 0), Step(3, 1, 1, 0, 0, 1), Step(1, 0, 0, 1, 1, 3), 5, 2) by { Rounds(); }
    Rounds();
  }

  lemma Rounds()
    ensures Next(Step(22, 7, 0, 1, 1, 0)) == Step(7, 1, 1, 3, 0, 1)
      && Next(Step(7, 1, 1, 3, 0, 1)) == Step(1, 0, 3, 22, 1, 7)
    ensures Next(Step(1, 3, 0, 1, 1, 0)) == Step(3, 1, 1, 0, 0, 1)
      && Next(Step(3, 1, 1, 0, 0, 1)) == Step(1, 0, 0, 1, 1, 3)
  {}

  lemma TwoRounds(s: Step, h: Step, t: Step, maxN: nat, maxD: nat)
    requires s.d > 0 && Next(s) == h && h.d > 0 && Next(h) == t
    requires h.n1 <= maxN && h.d1 <= maxD && (t.n1 > maxN || t.d1 > maxD)
    ensures Halt(s, maxN, maxD) == h
  {
    hide Next;
  }

  /** When the expansion ends by itself, the last convergent is the fraction in lowest terms. */
  lemma Finish(givenN: nat, givenD: nat, n: nat, n1: nat, d1: nat)
    requires givenN == n1 * n && givenD == d1 * n && Gcd(n, 0) == Gcd(givenN, givenD) && givenD > 0
    ensures var g := Gcd(givenN, givenD);
      g == n > 0 && givenN / g == n1 && givenD / g == d1
  {
    hide Gcd;
    GcdZero(n);
    PositiveProduct(d1, n);
    Commute(n, n1);
    Commute(n, d1);
    MulDiv(n, n1);
    MulDiv(n, d1);
  }

  lemma GcdZero(n: nat)
    ensures Gcd(n, 0) == n
  {}

  lemma GcdStep(n: nat, d: nat)
    requires d > 0
    ensures Gcd(d, n % d) == Gcd(n, d)
  {}

  /** One round of the loop: the next convergent, what it keeps, and why it cannot overflow. */
  lemma Expand(givenN: nat, givenD: nat, n: nat, d: nat, n0: nat, n1: nat, d0: nat, d1: nat) returns (tn: nat, td: nat)
    requires d > 0 && givenD > 0 && Gcd(n, d) == Gcd(givenN, givenD)
    requires givenN == n1 * n + n0 * d && givenD == d1 * n + d0 * d
    ensures tn == n0 + (n / d) * n1 && td == d0 + (n / d) * d1
    ensures givenN == tn * d + n1 * (n % d) && givenD == td * d + d1 * (n % d)
    ensures (n / d) * n1 <= givenN && tn <= givenN && (n / d) * d1 <= givenD && td <= givenD
    ensures var g := Gcd(givenN, givenD);
      g > 0 && tn <= givenN / g && td <= givenD / g && Gcd(d, n % d) == g
  {
    hide Gcd;
    ExpandStep(givenN, n, d, n0, n1);
    ExpandStep(givenD, n, d, d0, d1);
    var a: nat := n / d;
    tn, td := n0 + a * n1, d0 + a * d1;
    MulNonNeg(n1, n % d);
    MulNonNeg(d1, n % d);
    StepBound(givenN, givenD, n, d, tn, td);
  }

  /** A convergent never exceeds the reduced fraction, so a bound that stops the expansion is a bound
      the reduced fraction breaks. */
  lemma StepBound(givenN: nat, givenD: nat, n: nat, d: nat, tn: nat, td: nat)
    requires d > 0 && givenD > 0 && Gcd(n, d) == Gcd(givenN, givenD)
    requires tn * d <= givenN && td * d <= givenD
    ensures var g := Gcd(givenN, givenD);
      g > 0 && tn <= givenN / g && td <= givenD / g && Gcd(d, n % d) == g
  {
    hide Gcd, Coprime;
    LowestTerms(givenN, givenD);
    GcdAtMost(n, d);
    GcdStep(n, d);
    var g := Gcd(givenN, givenD);
    var p, q := givenN / g, givenD / g;
    assert tn * d <= g * p && td * d <= g * q;
    ConvergentBound(tn, d, g, p);
    ConvergentBound(td, d, g, q);
  }
}
