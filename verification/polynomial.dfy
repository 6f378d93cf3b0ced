/**
 * Integer polynomials in one variable (day 21, second solution).
 *
 * Every monkey's number is a polynomial in the human's number. Coefficients are stored
 * lowest degree first and kept normalised: no trailing zero unless the polynomial is the
 * constant zero, which is `[0]`. The meaning of a coefficient sequence is its value at a
 * point, computed by Horner's rule; sums, differences and products are proved to agree
 * with that meaning.
 */
module Polynomials {

  import opened Common

  datatype Polynomial = Polynomial(coeffs: seq<int>)

  /** Every polynomial the program builds has at least one coefficient. */
  predicate Valid(p: Polynomial) {
    |p.coeffs| >= 1
  }

  /** Normal form: no trailing zero coefficient, except in the zero polynomial `[0]`. */
  predicate IsNormal(c: seq<int>) {
    |c| >= 1 && (c[|c| - 1] != 0 || c == [0])
  }

  /** Coefficient i of a coefficient sequence, zero past its end. */
  function Coeff(c: seq<int>, i: nat): int {
    if i < |c| then c[i] else 0
  }

  /** All coefficients but the constant one, shifted down one degree. */
  function Tail(c: seq<int>): (t: seq<int>)
    ensures forall i: nat :: Coeff(t, i) == Coeff(c, i + 1)
  {
    if |c| == 0 then c else c[1..]
  }

  /** The value of the polynomial with coefficients c at x, by Horner's rule. */
  function EvalCoeffs(c: seq<int>, x: int): int {
    if |c| == 0 then 0 else c[0] + x * EvalCoeffs(c[1..], x)
  }

  function Eval(p: Polynomial, x: int): int {
    EvalCoeffs(p.coeffs, x)
  }

  ghost predicate SameCoeffs(c: seq<int>, d: seq<int>) {
    forall i: nat :: Coeff(c, i) == Coeff(d, i)
  }

  /** Horner's rule on any coefficient sequence, the empty one included. */
  lemma EvalByTail(c: seq<int>, x: int)
    ensures EvalCoeffs(c, x) == Coeff(c, 0) + x * EvalCoeffs(Tail(c), x)
  {
  }

  /** The value depends only on the coefficients, not on trailing zeros. */
  lemma {:induction false} SameCoeffsSameValue(c: seq<int>, d: seq<int>, x: int)
    requires SameCoeffs(c, d)
    ensures EvalCoeffs(c, x) == EvalCoeffs(d, x)
    decreases |c| + |d|
  {
    if |c| + |d| > 0 {
      EvalByTail(c, x);
      EvalByTail(d, x);
      assert Coeff(c, 0) == Coeff(d, 0);
      forall i: nat
        ensures Coeff(Tail(c), i) == Coeff(Tail(d), i)
      {
        assert Coeff(c, i + 1) == Coeff(d, i + 1);
      }
      SameCoeffsSameValue(Tail(c), Tail(d), x);
    }
  }

  /** Coefficientwise sums have the sum of the values. */
  lemma {:induction false} EvalOfSum(a: seq<int>, b: seq<int>, r: seq<int>, x: int)
    requires forall i: nat :: Coeff(r, i) == Coeff(a, i) + Coeff(b, i)
    ensures EvalCoeffs(r, x) == EvalCoeffs(a, x) + EvalCoeffs(b, x)
    decreases |a| + |b| + |r|
  {
    if |a| + |b| + |r| > 0 {
      EvalByTail(a, x);
      EvalByTail(b, x);
      EvalByTail(r, x);
      assert Coeff(r, 0) == Coeff(a, 0) + Coeff(b, 0);
      forall i: nat
        ensures Coeff(Tail(r), i) == Coeff(Tail(a), i) + Coeff(Tail(b), i)
      {
        assert Coeff(r, i + 1) == Coeff(a, i + 1) + Coeff(b, i + 1);
      }
      EvalOfSum(Tail(a), Tail(b), Tail(r), x);
      assert x * EvalCoeffs(Tail(r), x) == x * EvalCoeffs(Tail(a), x) + x * EvalCoeffs(Tail(b), x);
    }
  }

  /** Scaling every coefficient by k scales the value by k. */
  lemma {:induction false} EvalOfScaled(k: int, b: seq<int>, r: seq<int>, x: int)
    requires forall i: nat :: Coeff(r, i) == k * Coeff(b, i)
    ensures EvalCoeffs(r, x) == k * EvalCoeffs(b, x)
    decreases |b| + |r|
  {
    if |b| + |r| > 0 {
      EvalByTail(b, x);
      EvalByTail(r, x);
      assert Coeff(r, 0) == k * Coeff(b, 0);
      forall i: nat
        ensures Coeff(Tail(r), i) == k * Coeff(Tail(b), i)
      {
        assert Coeff(r, i + 1) == k * Coeff(b, i + 1);
      }
      EvalOfScaled(k, Tail(b), Tail(r), x);
      var e := EvalCoeffs(Tail(b), x);
      assert x * (k * e) == k * (x * e);
      assert k * Coeff(b, 0) + k * (x * e) == k * (Coeff(b, 0) + x * e);
    }
  }

  /** Coefficient i of a polynomial; zero above its degree. */
  function CoeffAt(p: Polynomial, idx: nat): (r: int)
    requires Valid(p)
    ensures r == Coeff(p.coeffs, idx)
  {
    if idx <= Degree(p) then p.coeffs[idx] else 0
  }

  function Degree(p: Polynomial): (d: nat)
    requires Valid(p)
    ensures d < |p.coeffs|
  {
    |p.coeffs| - 1
  }

  /** The values of the two polynomials the parser and the human's override build. */
  lemma EvalOfShortSequences(c: int)
    ensures forall x :: EvalCoeffs([c], x) == c
    ensures forall x :: EvalCoeffs([0, 1], x) == x
  {
    assert [c][1..] == [];
    forall x
      ensures EvalCoeffs([0, 1], x) == x
    {
      assert [0, 1][1..] == [1] && [1][1..] == [];
      assert EvalCoeffs([1], x) == 1;
    }
  }

  /** The constant polynomial c. */
  function Constant(c: int): (p: Polynomial)
    ensures Valid(p) && Degree(p) == 0 && CoeffAt(p, 0) == c
    ensures forall x :: Eval(p, x) == c
  {
    EvalOfShortSequences(c);
    Polynomial([c])
  }

  /** The polynomial x, standing for the human's unknown number. */
  function Identity(): (p: Polynomial)
    ensures Valid(p) && Degree(p) == 1 && IsNormal(p.coeffs)
    ensures forall x :: Eval(p, x) == x
  {
    EvalOfShortSequences(0);
    Polynomial([0, 1])
  }

  /** Drops trailing zero coefficients, stopping at a single coefficient. */
  function Normalise(c: seq<int>): (r: seq<int>)
    requires |c| >= 1
    ensures IsNormal(r)
    ensures |r| <= |c| && r == c[..|r|]
    ensures forall i :: |r| <= i < |c| ==> c[i] == 0
    decreases |c|
  {
    if c[|c| - 1] == 0 && |c| > 1 then Normalise(c[..|c| - 1]) else c
  }

  /** Normalising keeps every coefficient, so it keeps the value too. */
  lemma NormaliseKeepsValue(c: seq<int>, x: int)
    requires |c| >= 1
    ensures SameCoeffs(Normalise(c), c)
    ensures EvalCoeffs(Normalise(c), x) == EvalCoeffs(c, x)
  {
    var r := Normalise(c);
    forall i: nat
      ensures Coeff(r, i) == Coeff(c, i)
    {
      if i < |r| {
        assert r[i] == c[i];
      }
    }
    SameCoeffsSameValue(r, c, x);
  }

  function Max(a: nat, b: nat): nat {
    if a < b then b else a
  }

  /** Coefficientwise sum over the larger of the two degrees, then normalised. */
  function PolyAdd(a: Polynomial, b: Polynomial): (r: Polynomial)
    requires Valid(a) && Valid(b)
    ensures Valid(r) && IsNormal(r.coeffs)
    ensures forall i: nat :: CoeffAt(r, i) == CoeffAt(a, i) + CoeffAt(b, i)
  {
    var outDegree := Max(Degree(a), Degree(b));
    var raw := seq(outDegree + 1, idx requires 0 <= idx => CoeffAt(a, idx) + CoeffAt(b, idx));
    var r := Polynomial(Normalise(raw));
    NormaliseKeepsValue(raw, 0);
    assert forall i: nat :: Coeff(raw, i) == Coeff(a.coeffs, i) + Coeff(b.coeffs, i);
    r
  }

  /** Coefficientwise difference over the larger of the two degrees, then normalised. */
  function PolySub(a: Polynomial, b: Polynomial): (r: Polynomial)
    requires Valid(a) && Valid(b)
    ensures Valid(r) && IsNormal(r.coeffs)
    ensures forall i: nat :: CoeffAt(r, i) == CoeffAt(a, i) - CoeffAt(b, i)
  {
    var outDegree := Max(Degree(a), Degree(b));
    var raw := seq(outDegree + 1, idx requires 0 <= idx => CoeffAt(a, idx) - CoeffAt(b, idx));
    var r := Polynomial(Normalise(raw));
    NormaliseKeepsValue(raw, 0);
    assert forall i: nat :: Coeff(raw, i) == Coeff(a.coeffs, i) - Coeff(b.coeffs, i);
    r
  }

  /** The sum for idx in [0, n) of a[idx] * b[deg - idx], with zeros past either end. */
  function ConvUpTo(a: seq<int>, b: seq<int>, deg: nat, n: nat): int
    requires n <= deg + 1
  {
    if n == 0 then 0 else ConvUpTo(a, b, deg, n - 1) + Coeff(a, n - 1) * Coeff(b, deg - (n - 1))
  }

  /** Coefficient `deg` of a product: the convolution sum over idx in [0, deg]. */
  function Conv(a: seq<int>, b: seq<int>, deg: nat): int {
    ConvUpTo(a, b, deg, deg + 1)
  }

  /** Peeling the constant coefficient off the first factor. */
  lemma {:induction false} ConvUpToPeel(a: seq<int>, b: seq<int>, deg: nat, n: nat)
    requires 1 <= deg && n <= deg
    ensures ConvUpTo(a, b, deg, n + 1) == Coeff(a, 0) * Coeff(b, deg) + ConvUpTo(Tail(a), b, deg - 1, n)
  {
    if n > 0 {
      ConvUpToPeel(a, b, deg, n - 1);
      assert Coeff(a, n) == Coeff(Tail(a), n - 1);
    }
  }

  lemma ConvPeel(a: seq<int>, b: seq<int>, deg: nat)
    ensures Conv(a, b, deg) == Coeff(a, 0) * Coeff(b, deg) + (if deg == 0 then 0 else Conv(Tail(a), b, deg - 1))
  {
    if deg > 0 {
      ConvUpToPeel(a, b, deg, deg);
    } else {
      assert ConvUpTo(a, b, 0, 0) == 0;
    }
  }

  /** Every term of a convolution sum past both degrees has a zero factor. */
  lemma {:induction false} ConvUpToBeyond(a: seq<int>, b: seq<int>, deg: nat, n: nat)
    requires deg + 1 >= |a| + |b| && n <= deg + 1
    ensures ConvUpTo(a, b, deg, n) == 0
  {
    if n > 0 {
      ConvUpToBeyond(a, b, deg, n - 1);
      assert n - 1 >= |a| || deg - (n - 1) >= |b|;
    }
  }

  /** The convolution of a with the empty sequence, or of the empty sequence with b, is zero. */
  lemma {:induction false} ConvUpToEmpty(a: seq<int>, b: seq<int>, deg: nat, n: nat)
    requires |a| == 0 && n <= deg + 1
    ensures ConvUpTo(a, b, deg, n) == 0
  {
    if n > 0 {
      ConvUpToEmpty(a, b, deg, n - 1);
    }
  }

  /** The convolution coefficients, as a sequence long enough to hold every non-zero one. */
  function ConvCoeffs(a: seq<int>, b: seq<int>): (r: seq<int>)
    ensures forall d: nat :: Coeff(r, d) == Conv(a, b, d)
  {
    var r := seq(|a| + |b|, d requires 0 <= d => Conv(a, b, d));
    forall d: nat | d >= |a| + |b|
      ensures Conv(a, b, d) == 0
    {
      ConvUpToBeyond(a, b, d, d + 1);
    }
    r
  }

  /** A sequence whose coefficients are the convolution of a and b evaluates to the product. */
  lemma {:induction false} EvalOfConv(a: seq<int>, b: seq<int>, r: seq<int>, x: int)
    requires forall d: nat :: Coeff(r, d) == Conv(a, b, d)
    ensures EvalCoeffs(r, x) == EvalCoeffs(a, x) * EvalCoeffs(b, x)
    decreases |a|
  {
    if |a| == 0 {
      forall d: nat
        ensures Coeff(r, d) == Coeff([], d)
      {
        ConvUpToEmpty(a, b, d, d + 1);
      }
      SameCoeffsSameValue(r, [], x);
    } else {
      var a0, rest := a[0], a[1..];
      var restConv := ConvCoeffs(rest, b);
      EvalOfConv(rest, b, restConv, x);
      var scaled := seq(|b|, i requires 0 <= i < |b| => a0 * b[i]);
      assert forall i: nat :: Coeff(scaled, i) == a0 * Coeff(b, i);
      EvalOfScaled(a0, b, scaled, x);
      var shifted := [0] + restConv;
      assert shifted[1..] == restConv;
      assert EvalCoeffs(shifted, x) == x * EvalCoeffs(restConv, x);
      forall d: nat
        ensures Coeff(r, d) == Coeff(scaled, d) + Coeff(shifted, d)
      {
        ConvPeel(a, b, d);
        if d > 0 {
          assert Coeff(shifted, d) == Coeff(restConv, d - 1);
        }
      }
      EvalOfSum(scaled, shifted, r, x);
      HornerProduct(a0, x, EvalCoeffs(rest, x), EvalCoeffs(b, x));
    }
  }

  /** Multiplying one Horner step by a second value distributes over the step. */
  lemma HornerProduct(a0: int, x: int, ea: int, eb: int)
    ensures a0 * eb + x * (ea * eb) == (a0 + x * ea) * eb
  {
    assert x * (ea * eb) == (x * ea) * eb;
    assert a0 * eb + (x * ea) * eb == (a0 + x * ea) * eb;
  }

  /** Product: coefficient deg is the convolution sum, up to the sum of the degrees. */
  function PolyMul(a: Polynomial, b: Polynomial): (r: Polynomial)
    requires Valid(a) && Valid(b)
    ensures Valid(r) && IsNormal(r.coeffs)
    ensures forall deg: nat :: CoeffAt(r, deg) == Conv(a.coeffs, b.coeffs, deg)
  {
    var outDegree := Degree(a) + Degree(b);
    var raw := seq(outDegree + 1, deg requires 0 <= deg => ConvUpTo(a.coeffs, b.coeffs, deg, deg + 1));
    NormaliseKeepsValue(raw, 0);
    forall deg: nat | deg > outDegree
      ensures Conv(a.coeffs, b.coeffs, deg) == 0
    {
      ConvUpToBeyond(a.coeffs, b.coeffs, deg, deg + 1);
    }
    Polynomial(Normalise(raw))
  }

  /** Sum, difference and product of polynomials are those of their values. */
  lemma EvalHomomorphism(a: Polynomial, b: Polynomial, x: int)
    requires Valid(a) && Valid(b)
    ensures Eval(PolyAdd(a, b), x) == Eval(a, x) + Eval(b, x)
    ensures Eval(PolySub(a, b), x) == Eval(a, x) - Eval(b, x)
    ensures Eval(PolyMul(a, b), x) == Eval(a, x) * Eval(b, x)
  {
    var sum, diff := PolyAdd(a, b), PolySub(a, b);
    forall i: nat
      ensures Coeff(sum.coeffs, i) == Coeff(a.coeffs, i) + Coeff(b.coeffs, i)
      ensures Coeff(diff.coeffs, i) == Coeff(a.coeffs, i) - Coeff(b.coeffs, i)
    {
      assert CoeffAt(sum, i) == CoeffAt(a, i) + CoeffAt(b, i);
      assert CoeffAt(diff, i) == CoeffAt(a, i) - CoeffAt(b, i);
    }
    EvalOfSum(a.coeffs, b.coeffs, sum.coeffs, x);
    var negB := seq(|b.coeffs|, i requires 0 <= i < |b.coeffs| => -b.coeffs[i]);
    assert forall i: nat :: Coeff(negB, i) == -1 * Coeff(b.coeffs, i);
    EvalOfScaled(-1, b.coeffs, negB, x);
    EvalOfSum(a.coeffs, negB, PolySub(a, b).coeffs, x);
    var product := PolyMul(a, b);
    forall d: nat
      ensures Coeff(product.coeffs, d) == Conv(a.coeffs, b.coeffs, d)
    {
      assert CoeffAt(product, d) == Conv(a.coeffs, b.coeffs, d);
    }
    EvalOfConv(a.coeffs, b.coeffs, product.coeffs, x);
  }

  /**
   * The sum of the roots as a fraction (numerator, denominator) by Vieta's formula:
   * minus the second-highest coefficient over the highest. Constants give 0 / 1.
   */
  function SumOfRoots(p: Polynomial): (r: (int, int))
    requires Valid(p)
    ensures Degree(p) < 1 ==> r == (0, 1)
    ensures Degree(p) >= 1 ==> r.1 == CoeffAt(p, Degree(p)) && r.0 == -CoeffAt(p, Degree(p) - 1)
  {
    if Degree(p) < 1 then (0, 1) else (-p.coeffs[Degree(p) - 1], p.coeffs[Degree(p)])
  }

  /**
   * For a normalised linear polynomial the denominator is non-zero, and when it divides
   * the numerator their quotient is the root.
   */
  lemma SumOfRootsIsRoot(p: Polynomial)
    requires Valid(p) && IsNormal(p.coeffs) && Degree(p) == 1
    ensures SumOfRoots(p).1 != 0
    ensures SumOfRoots(p).0 % SumOfRoots(p).1 == 0 ==> Eval(p, SumOfRoots(p).0 / SumOfRoots(p).1) == 0
  {
    var (numer, denom) := SumOfRoots(p);
    if numer % denom == 0 {
      var q := numer / denom;
      assert numer == denom * q;
      var c := p.coeffs;
      assert c[1..][1..] == [];
      assert EvalCoeffs(c[1..], q) == c[1];
      assert Eval(p, q) == c[0] + q * c[1];
    }
  }

  datatype Op = Add | Subtract | Multiply

  datatype Monkey = Value(poly: Polynomial) | Expr(left: string, right: string, op: Op)

  function Apply(op: Op, a: Polynomial, b: Polynomial): (r: Polynomial)
    requires Valid(a) && Valid(b)
    ensures Valid(r)
  {
    match op
    case Add => PolyAdd(a, b)
    case Subtract => PolySub(a, b)
    case Multiply => PolyMul(a, b)
  }

  /** The operation on plain integers. */
  function ApplyInt(op: Op, a: int, b: int): int {
    match op
    case Add => a + b
    case Subtract => a - b
    case Multiply => a * b
  }

  /**
   * A rank that strictly decreases from every expression to each child it names, which
   * rules out cycles; every stored value is a valid polynomial.
   */
  predicate WellFounded(monkeys: map<string, Monkey>, rank: map<string, nat>) {
    forall name :: name in monkeys ==>
      && name in rank
      && (monkeys[name].Value? ==> Valid(monkeys[name].poly))
      && (monkeys[name].Expr? ==>
            && (monkeys[name].left in monkeys ==>
                  monkeys[name].left in rank && rank[monkeys[name].left] < rank[name])
            && (monkeys[name].right in monkeys ==>
                  monkeys[name].right in rank && rank[monkeys[name].right] < rank[name]))
  }

  /**
   * The polynomial a monkey yells. A name with no monkey has no value (the source
   * prints it and panics on the lookup).
   */
  function EvaluateMonkey(name: string, monkeys: map<string, Monkey>, rank: map<string, nat>): (r: Option<Polynomial>)
    requires WellFounded(monkeys, rank)
    ensures name !in monkeys ==> r.None?
    ensures name in monkeys && monkeys[name].Value? ==> r == Some(monkeys[name].poly)
    ensures r.Some? ==> Valid(r.value)
    decreases if name in monkeys && name in rank then rank[name] + 1 else 0
  {
    if name !in monkeys then None
    else match monkeys[name]
      case Value(v) => Some(v)
      case Expr(left, right, op) =>
        match (EvaluateMonkey(left, monkeys, rank), EvaluateMonkey(right, monkeys, rank))
        case (Some(l), Some(r)) => Some(Apply(op, l, r))
        case _ => None
  }

  /** The number a monkey yells when the human's number is x: the integer reference. */
  function EvaluateAt(name: string, monkeys: map<string, Monkey>, rank: map<string, nat>, x: int): Option<int>
    requires WellFounded(monkeys, rank)
    decreases if name in monkeys && name in rank then rank[name] + 1 else 0
  {
    if name !in monkeys then None
    else match monkeys[name]
      case Value(v) => Some(Eval(v, x))
      case Expr(left, right, op) =>
        match (EvaluateAt(left, monkeys, rank, x), EvaluateAt(right, monkeys, rank, x))
        case (Some(l), Some(r)) => Some(ApplyInt(op, l, r))
        case _ => None
  }

  /** The polynomial of a monkey, evaluated at x, is the number it yells for x. */
  lemma {:induction false} EvaluateMonkeyAgrees(name: string, monkeys: map<string, Monkey>, rank: map<string, nat>, x: int)
    requires WellFounded(monkeys, rank)
    ensures EvaluateMonkey(name, monkeys, rank).Some? <==> EvaluateAt(name, monkeys, rank, x).Some?
    ensures EvaluateMonkey(name, monkeys, rank).Some? ==>
              Eval(EvaluateMonkey(name, monkeys, rank).value, x) == EvaluateAt(name, monkeys, rank, x).value
    decreases if name in monkeys && name in rank then rank[name] + 1 else 0
  {
    if name in monkeys && monkeys[name].Expr? {
      var left, right := monkeys[name].left, monkeys[name].right;
      EvaluateMonkeyAgrees(left, monkeys, rank, x);
      EvaluateMonkeyAgrees(right, monkeys, rank, x);
      var l, r := EvaluateMonkey(left, monkeys, rank), EvaluateMonkey(right, monkeys, rank);
      if l.Some? && r.Some? {
        EvalHomomorphism(l.value, r.value, x);
      }
    }
  }
}
