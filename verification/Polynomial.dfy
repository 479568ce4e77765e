/** Polynomials over a field of characteristic two, as lists of coefficients with the constant term first:
    evaluation, division by a linear factor, root counting and Lagrange interpolation. */
module Polynomial {
  import opened Field
  import opened Sequences

  // ---------- Evaluation ----------

  ghost function Value<F(!new)>(f: Field<F>, p: seq<F>, x: F): F {
    if |p| == 0 then f.zero else f.add(p[0], f.mul(x, Value(f, p[1..], x)))
  }

  ghost function Power<F(!new)>(f: Field<F>, x: F, n: nat): F {
    if n == 0 then f.one else f.mul(x, Power(f, x, n - 1))
  }

  // The sum of p[i] * x^i over i < n.
  ghost function PowerSum<F(!new)>(f: Field<F>, p: seq<F>, x: F, n: nat): F
    requires n <= |p|
  {
    if n == 0 then f.zero else f.add(PowerSum(f, p, x, n - 1), f.mul(p[n - 1], Power(f, x, n - 1)))
  }

  // Horner's scheme computes the sum of the powers.
  lemma ValueIsPowerSum<F(!new)>(f: Field<F>, p: seq<F>, x: F)
    requires f.Valid()
    ensures Value(f, p, x) == PowerSum(f, p, x, |p|)
  {
    PowerSumSplit(f, p, x, |p|);
    assert f.Laws(PowerSum(f, p, x, |p|), f.zero, f.zero);
    f.MulZero(Power(f, x, |p|));
  }

  lemma {:induction false} PowerSumSplit<F(!new)>(f: Field<F>, p: seq<F>, x: F, n: nat)
    requires f.Valid() && n <= |p|
    ensures Value(f, p, x) == f.add(PowerSum(f, p, x, n), f.mul(Power(f, x, n), Value(f, p[n..], x)))
    decreases n
  {
    if n == 0 {
      assert p[0..] == p;
      var v := Value(f, p, x);
      assert f.Laws(f.one, v, v) && f.Laws(v, f.one, v) && f.Laws(f.zero, v, v) && f.Laws(v, v, v);
    } else {
      PowerSumSplit(f, p, x, n - 1);
      assert p[n - 1..][1..] == p[n..];
      var s, w, c, v := PowerSum(f, p, x, n - 1), Power(f, x, n - 1), p[n - 1], Value(f, p[n..], x);
      assert f.Laws(w, c, f.mul(x, v)) && f.Laws(s, f.mul(w, c), f.mul(w, f.mul(x, v)));
      assert f.Laws(w, x, v);
    }
  }

  // ---------- Sum, scaling, multiplication by a linear factor ----------

  ghost function Sum<F(!new)>(f: Field<F>, p: seq<F>, q: seq<F>): (s: seq<F>)
    requires |p| == |q|
    ensures |s| == |p|
  {
    seq(|p|, i requires 0 <= i < |p| => f.add(p[i], q[i]))
  }

  ghost function Scale<F(!new)>(f: Field<F>, c: F, p: seq<F>): (s: seq<F>)
    ensures |s| == |p|
  {
    seq(|p|, i requires 0 <= i < |p| => f.mul(c, p[i]))
  }

  // (X + r) * p
  ghost function TimesLinear<F(!new)>(f: Field<F>, p: seq<F>, r: F): (s: seq<F>)
    ensures |s| == |p| + 1
  {
    Sum(f, [f.zero] + p, Scale(f, r, p) + [f.zero])
  }

  lemma {:induction false} ValueOfSum<F(!new)>(f: Field<F>, p: seq<F>, q: seq<F>, x: F)
    requires f.Valid() && |p| == |q|
    ensures Value(f, Sum(f, p, q), x) == f.add(Value(f, p, x), Value(f, q, x))
  {
    if |p| == 0 {
      assert f.Laws(f.zero, f.zero, f.zero);
    } else {
      assert Sum(f, p, q)[1..] == Sum(f, p[1..], q[1..]);
      ValueOfSum(f, p[1..], q[1..], x);
      var v, w := Value(f, p[1..], x), Value(f, q[1..], x);
      assert f.Laws(x, v, w);
      f.AddSwap(p[0], q[0], f.mul(x, v), f.mul(x, w));
    }
  }

  lemma {:induction false} ValueOfScale<F(!new)>(f: Field<F>, c: F, p: seq<F>, x: F)
    requires f.Valid()
    ensures Value(f, Scale(f, c, p), x) == f.mul(c, Value(f, p, x))
  {
    if |p| == 0 {
      f.MulZero(c);
    } else {
      assert Scale(f, c, p)[1..] == Scale(f, c, p[1..]);
      ValueOfScale(f, c, p[1..], x);
      var v := Value(f, p[1..], x);
      assert f.Laws(c, p[0], f.mul(x, v)) && f.Laws(c, x, v) && f.Laws(x, c, v);
    }
  }

  lemma {:induction false} ValueOfZeros<F(!new)>(f: Field<F>, n: nat, x: F)
    requires f.Valid()
    ensures Value(f, seq(n, _ => f.zero), x) == f.zero
  {
    if n > 0 {
      assert seq(n, _ => f.zero)[1..] == seq(n - 1, _ => f.zero);
      ValueOfZeros(f, n - 1, x);
      f.MulZero(x);
      assert f.Laws(f.zero, f.zero, f.zero);
    }
  }

  lemma ValueOfConstant<F(!new)>(f: Field<F>, c: F, x: F)
    requires f.Valid()
    ensures Value(f, [c], x) == c
  {
    assert [c][1..] == [];
    f.MulZero(x);
    assert f.Laws(c, f.zero, f.zero);
  }

  // Appending zero coefficients changes no value.
  lemma {:induction false} ValueOfPadding<F(!new)>(f: Field<F>, p: seq<F>, n: nat, x: F)
    requires f.Valid()
    ensures Value(f, p + seq(n, _ => f.zero), x) == Value(f, p, x)
    decreases |p|, n
  {
    var padded := p + seq(n, _ => f.zero);
    if |p| > 0 {
      assert padded[1..] == p[1..] + seq(n, _ => f.zero);
      ValueOfPadding(f, p[1..], n, x);
    } else if n > 0 {
      assert padded[1..] == p + seq(n - 1, _ => f.zero);
      ValueOfPadding(f, p, n - 1, x);
      f.MulZero(x);
      assert f.Laws(f.zero, f.zero, f.zero);
    } else {
      assert padded == p;
    }
  }

  lemma ValueOfTimesLinear<F(!new)>(f: Field<F>, p: seq<F>, r: F, x: F)
    requires f.Valid()
    ensures Value(f, TimesLinear(f, p, r), x) == f.mul(f.add(x, r), Value(f, p, x))
  {
    var shifted, scaled, v := [f.zero] + p, Scale(f, r, p), Value(f, p, x);
    ValueOfSum(f, shifted, scaled + [f.zero], x);
    assert shifted[1..] == p;
    assert f.Laws(f.zero, f.mul(x, v), v) && f.Laws(f.mul(x, v), v, v);
    ValueOfPadding(f, scaled, 1, x);
    assert [f.zero] == seq(1, _ => f.zero);
    ValueOfScale(f, r, p, x);
    assert f.Laws(v, x, r) && f.Laws(v, f.add(x, r), v) && f.Laws(x, v, v) && f.Laws(r, v, v);
  }

  // ---------- The factor theorem and root counting ----------

  // The quotient of p by X + r; the remainder is p's value at r.
  ghost function Quotient<F(!new)>(f: Field<F>, p: seq<F>, r: F): (q: seq<F>)
    ensures |q| == if |p| == 0 then 0 else |p| - 1
  {
    if |p| <= 1 then [] else [Value(f, p[1..], r)] + Quotient(f, p[1..], r)
  }

  lemma {:induction false} FactorTheorem<F(!new)>(f: Field<F>, p: seq<F>, r: F, x: F)
    requires f.Valid()
    ensures Value(f, p, x) == f.add(f.mul(f.add(x, r), Value(f, Quotient(f, p, r), x)), Value(f, p, r))
  {
    if |p| <= 1 {
      f.MulZero(f.add(x, r));
      f.MulZero(x);
      f.MulZero(r);
      var v := Value(f, p, r);
      assert |p| == 1 ==> Value(f, p[1..], x) == f.zero == Value(f, p[1..], r);
      assert f.Laws(v, f.zero, f.zero) && f.Laws(f.zero, v, v);
    } else {
      var tail := p[1..];
      FactorTheorem(f, tail, r, x);
      assert Quotient(f, p, r)[1..] == Quotient(f, tail, r);
      FactorStep(f, p[0], x, r, Value(f, Quotient(f, tail, r), x), Value(f, tail, r));
    }
  }

  // With tail(x) = (x + r) * w + t and tail(r) = t: p0 + x * tail(x) = (x + r) * (t + x * w) + (p0 + r * t).
  lemma FactorStep<F(!new)>(f: Field<F>, p0: F, x: F, r: F, w: F, t: F)
    requires f.Valid()
    ensures f.add(p0, f.mul(x, f.add(f.mul(f.add(x, r), w), t)))
         == f.add(f.mul(f.add(x, r), f.add(t, f.mul(x, w))), f.add(p0, f.mul(r, t)))
  {
    var s := f.add(x, r);
    var a, xt, rt := f.mul(x, f.mul(s, w)), f.mul(x, t), f.mul(r, t);
    assert f.Laws(x, f.mul(s, w), t);
    assert f.mul(s, f.mul(x, w)) == a by {
      assert f.Laws(s, x, w) && f.Laws(x, s, w);
    }
    assert f.mul(s, t) == f.add(xt, rt) by {
      assert f.Laws(t, x, r) && f.Laws(s, t, t) && f.Laws(t, s, s) && f.Laws(x, t, t) && f.Laws(r, t, t);
    }
    assert f.mul(s, f.add(t, f.mul(x, w))) == f.add(f.add(xt, rt), a) by {
      assert f.Laws(s, t, f.mul(x, w));
    }
    CancelAcross(f, p0, a, xt, rt);
  }

  lemma CancelAcross<F(!new)>(f: Field<F>, p0: F, a: F, xt: F, rt: F)
    requires f.Valid()
    ensures f.add(f.add(f.add(xt, rt), a), f.add(p0, rt)) == f.add(p0, f.add(a, xt))
  {
    f.AddSwap(f.add(xt, rt), a, rt, p0);
    f.AddCancel(xt, rt);
    assert f.Laws(p0, rt, rt) && f.Laws(xt, a, p0) && f.Laws(a, p0, p0) && f.Laws(xt, p0, a);
    assert f.Laws(f.add(a, xt), p0, p0) && f.Laws(a, xt, xt);
  }

  ghost predicate AllZero<F(!new)>(f: Field<F>, p: seq<F>) {
    forall i | 0 <= i < |p| :: p[i] == f.zero
  }

  ghost predicate VanishesAt<F(!new)>(f: Field<F>, p: seq<F>, xs: seq<F>) {
    forall i | 0 <= i < |xs| :: Value(f, p, xs[i]) == f.zero
  }

  // A quotient and a remainder that are both zero leave nothing of the polynomial.
  lemma {:induction false} ZeroQuotient<F(!new)>(f: Field<F>, p: seq<F>, r: F)
    requires f.Valid()
    requires AllZero(f, Quotient(f, p, r)) && Value(f, p, r) == f.zero
    ensures AllZero(f, p)
  {
    if |p| == 1 {
      f.MulZero(r);
      assert f.Laws(p[0], f.zero, f.zero);
    } else if |p| > 1 {
      var tail, q := p[1..], Quotient(f, p, r);
      assert q[0] == Value(f, tail, r) == f.zero;
      assert q[1..] == Quotient(f, tail, r);
      assert AllZero(f, Quotient(f, tail, r)) by {
        forall i | 0 <= i < |q| - 1
          ensures q[1..][i] == f.zero
        {
          assert q[i + 1] == f.zero;
        }
      }
      ZeroQuotient(f, tail, r);
      f.MulZero(r);
      assert f.Laws(p[0], f.zero, f.zero);
      forall i | 0 <= i < |p|
        ensures p[i] == f.zero
      {
        assert i > 0 ==> p[i] == tail[i - 1];
      }
    }
  }

  // A polynomial with at least as many distinct roots as coefficients is zero.
  lemma {:induction false} RootCounting<F(!new)>(f: Field<F>, p: seq<F>, xs: seq<F>)
    requires f.Valid() && Distinct(xs) && |p| <= |xs| && VanishesAt(f, p, xs)
    ensures AllZero(f, p)
    decreases |p|
  {
    if |p| > 0 {
      var r, q := xs[0], Quotient(f, p, xs[0]);
      forall i | 0 <= i < |xs| - 1
        ensures Value(f, q, xs[1..][i]) == f.zero
      {
        var x := xs[i + 1];
        FactorTheorem(f, p, r, x);
        var v := Value(f, q, x);
        assert f.Laws(f.mul(f.add(x, r), v), f.zero, f.zero) && f.Laws(f.add(x, r), v, v);
        f.AddZeroIffEqual(x, r);
        f.NoZeroDivisors(v, f.add(x, r));
        assert f.Laws(v, f.add(x, r), v);
      }
      RootCounting(f, q, xs[1..]);
      ZeroQuotient(f, p, r);
    }
  }

  // Two coefficient lists of the same length, no longer than the number of distinct points on which they
  // agree, are the same list.
  lemma CoefficientsUnique<F(!new)>(f: Field<F>, p: seq<F>, q: seq<F>, xs: seq<F>)
    requires f.Valid() && Distinct(xs) && |p| == |q| <= |xs|
    requires forall i | 0 <= i < |xs| :: Value(f, p, xs[i]) == Value(f, q, xs[i])
    ensures p == q
  {
    var s := Sum(f, p, q);
    forall i | 0 <= i < |xs|
      ensures Value(f, s, xs[i]) == f.zero
    {
      ValueOfSum(f, p, q, xs[i]);
      f.AddZeroIffEqual(Value(f, p, xs[i]), Value(f, q, xs[i]));
    }
    RootCounting(f, s, xs);
    forall i | 0 <= i < |p|
      ensures p[i] == q[i]
    {
      assert s[i] == f.zero;
      f.AddZeroIffEqual(p[i], q[i]);
    }
  }

  // ---------- Lagrange interpolation ----------

  datatype Point<F> = Point(x: F, y: F)

  ghost predicate DistinctX<F>(points: seq<Point<F>>) {
    forall i, j | 0 <= i < j < |points| :: points[i].x != points[j].x
  }

  // The product of (x - x_j) / (x_i - x_j) over j < n other than i.
  ghost function Weight<F(!new)>(f: Field<F>, points: seq<Point<F>>, i: nat, n: nat, x: F): F
    requires i < |points| && n <= |points|
  {
    if n == 0 then f.one
    else if n - 1 == i then Weight(f, points, i, n - 1, x)
    else f.mul(Weight(f, points, i, n - 1, x), f.div(f.add(x, points[n - 1].x), f.add(points[i].x, points[n - 1].x)))
  }

  // The weighted sum of the first n ordinates.
  ghost function WeightedSum<F(!new)>(f: Field<F>, points: seq<Point<F>>, n: nat, x: F): F
    requires n <= |points|
  {
    if n == 0 then f.zero
    else f.add(WeightedSum(f, points, n - 1, x), f.mul(Weight(f, points, n - 1, |points|, x), points[n - 1].y))
  }

  ghost function Interpolation<F(!new)>(f: Field<F>, points: seq<Point<F>>, x: F): F {
    WeightedSum(f, points, |points|, x)
  }

  ghost predicate Through<F(!new)>(f: Field<F>, p: seq<F>, points: seq<Point<F>>) {
    forall i | 0 <= i < |points| :: Value(f, p, points[i].x) == points[i].y
  }

  lemma DenominatorNonZero<F(!new)>(f: Field<F>, points: seq<Point<F>>, i: nat, j: nat)
    requires f.Valid() && DistinctX(points) && i < |points| && j < |points| && i != j
    ensures f.add(points[i].x, points[j].x) != f.zero
  {
    f.AddZeroIffEqual(points[i].x, points[j].x);
    assert points[if i < j then i else j].x != points[if i < j then j else i].x;
  }

  lemma {:induction false} WeightAtOwnPoint<F(!new)>(f: Field<F>, points: seq<Point<F>>, i: nat, n: nat)
    requires f.Valid() && DistinctX(points) && i < |points| && n <= |points|
    ensures Weight(f, points, i, n, points[i].x) == f.one
    decreases n
  {
    if n > 0 {
      WeightAtOwnPoint(f, points, i, n - 1);
      if n - 1 != i {
        DenominatorNonZero(f, points, i, n - 1);
        f.MulDiv(f.one, f.one, f.add(points[i].x, points[n - 1].x));
        assert f.Laws(f.one, f.one, f.one);
      }
    }
  }

  lemma {:induction false} WeightAtOtherPoint<F(!new)>(f: Field<F>, points: seq<Point<F>>, i: nat, n: nat, j: nat)
    requires f.Valid() && DistinctX(points) && i < |points| && j < n <= |points| && i != j
    ensures Weight(f, points, i, n, points[j].x) == f.zero
    decreases n
  {
    var x, w := points[j].x, Weight(f, points, i, n - 1, points[j].x);
    if n - 1 == i {
      WeightAtOtherPoint(f, points, i, n - 1, j);
    } else {
      var q := f.div(f.add(x, points[n - 1].x), f.add(points[i].x, points[n - 1].x));
      if n - 1 == j {
        f.AddZeroIffEqual(x, x);
        DenominatorNonZero(f, points, i, j);
        f.MulDiv(f.one, f.one, f.add(points[i].x, points[n - 1].x));
      } else {
        WeightAtOtherPoint(f, points, i, n - 1, j);
      }
      f.MulZero(w);
      f.MulZero(q);
    }
  }

  // Interpolation passes through every point.
  lemma InterpolationThrough<F(!new)>(f: Field<F>, points: seq<Point<F>>, k: nat)
    requires f.Valid() && DistinctX(points) && k < |points|
    ensures Interpolation(f, points, points[k].x) == points[k].y
  {
    WeightedSumAtPoint(f, points, |points|, k);
  }

  lemma {:induction false} WeightedSumAtPoint<F(!new)>(f: Field<F>, points: seq<Point<F>>, n: nat, k: nat)
    requires f.Valid() && DistinctX(points) && k < |points| && n <= |points|
    ensures WeightedSum(f, points, n, points[k].x) == if k < n then points[k].y else f.zero
    decreases n
  {
    if n > 0 {
      WeightedSumAtPoint(f, points, n - 1, k);
      var y := points[n - 1].y;
      if n - 1 == k {
        WeightAtOwnPoint(f, points, k, |points|);
        assert f.Laws(f.one, y, y) && f.Laws(y, f.one, y) && f.Laws(f.zero, y, y) && f.Laws(y, y, y);
      } else {
        WeightAtOtherPoint(f, points, n - 1, |points|, k);
        f.MulZero(y);
        var s := WeightedSum(f, points, n - 1, points[k].x);
        assert f.Laws(s, s, s);
      }
    }
  }

  // ---------- The interpolating polynomial as a coefficient list ----------

  // Coefficients of Weight(i, n) as a polynomial in x, padded to n + 1 entries.
  ghost function Basis<F(!new)>(f: Field<F>, points: seq<Point<F>>, i: nat, n: nat): (p: seq<F>)
    requires i < |points| && n <= |points|
    ensures |p| == if i < n then n else n + 1
  {
    if n == 0 then [f.one]
    else if n - 1 == i then Basis(f, points, i, n - 1)
    else Scale(f, f.div(f.one, f.add(points[i].x, points[n - 1].x)),
               TimesLinear(f, Basis(f, points, i, n - 1), points[n - 1].x))
  }

  ghost function BasisSum<F(!new)>(f: Field<F>, points: seq<Point<F>>, n: nat): (p: seq<F>)
    requires n <= |points|
    ensures |p| == |points|
  {
    if n == 0 then seq(|points|, _ => f.zero)
    else Sum(f, BasisSum(f, points, n - 1), Scale(f, points[n - 1].y, Basis(f, points, n - 1, |points|)))
  }

  ghost function Lagrange<F(!new)>(f: Field<F>, points: seq<Point<F>>): (p: seq<F>)
    ensures |p| == |points|
  {
    BasisSum(f, points, |points|)
  }

  lemma ValueOfFactor<F(!new)>(f: Field<F>, b: seq<F>, r: F, d: F, x: F)
    requires f.Valid() && d != f.zero
    ensures Value(f, Scale(f, f.div(f.one, d), TimesLinear(f, b, r)), x) == f.mul(Value(f, b, x), f.div(f.add(x, r), d))
  {
    ValueOfTimesLinear(f, b, r, x);
    ValueOfScale(f, f.div(f.one, d), TimesLinear(f, b, r), x);
    f.MulDiv(Value(f, b, x), f.add(x, r), d);
  }

  lemma {:induction false} ValueOfBasis<F(!new)>(f: Field<F>, points: seq<Point<F>>, i: nat, n: nat, x: F)
    requires f.Valid() && DistinctX(points) && i < |points| && n <= |points|
    ensures Value(f, Basis(f, points, i, n), x) == Weight(f, points, i, n, x)
    decreases n
  {
    if n == 0 {
      assert [f.one][1..] == [];
      f.MulZero(x);
      assert f.Laws(f.one, f.one, f.one);
    } else {
      ValueOfBasis(f, points, i, n - 1, x);
      if n - 1 != i {
        DenominatorNonZero(f, points, i, n - 1);
        ValueOfFactor(f, Basis(f, points, i, n - 1), points[n - 1].x, f.add(points[i].x, points[n - 1].x), x);
      }
    }
  }

  lemma ValueOfTerm<F(!new)>(f: Field<F>, points: seq<Point<F>>, i: nat, x: F)
    requires f.Valid() && DistinctX(points) && i < |points|
    ensures Value(f, Scale(f, points[i].y, Basis(f, points, i, |points|)), x)
         == f.mul(Weight(f, points, i, |points|, x), points[i].y)
  {
    ValueOfBasis(f, points, i, |points|, x);
    ValueOfScale(f, points[i].y, Basis(f, points, i, |points|), x);
    var w := Weight(f, points, i, |points|, x);
    assert f.Laws(points[i].y, w, w);
  }

  lemma {:induction false} ValueOfBasisSum<F(!new)>(f: Field<F>, points: seq<Point<F>>, n: nat, x: F)
    requires f.Valid() && DistinctX(points) && n <= |points|
    ensures Value(f, BasisSum(f, points, n), x) == WeightedSum(f, points, n, x)
    decreases n
  {
    if n == 0 {
      ValueOfZeros(f, |points|, x);
    } else {
      ValueOfBasisSum(f, points, n - 1, x);
      ValueOfTerm(f, points, n - 1, x);
      ValueOfSum(f, BasisSum(f, points, n - 1), Scale(f, points[n - 1].y, Basis(f, points, n - 1, |points|)), x);
    }
  }

  // Interpolation evaluates a polynomial with no more coefficients than there are points.
  lemma ValueOfLagrange<F(!new)>(f: Field<F>, points: seq<Point<F>>, x: F)
    requires f.Valid() && DistinctX(points)
    ensures Value(f, Lagrange(f, points), x) == Interpolation(f, points, x)
  {
    ValueOfBasisSum(f, points, |points|, x);
  }

  lemma LagrangeThrough<F(!new)>(f: Field<F>, points: seq<Point<F>>)
    requires f.Valid() && DistinctX(points)
    ensures Through(f, Lagrange(f, points), points)
  {
    forall i | 0 <= i < |points|
      ensures Value(f, Lagrange(f, points), points[i].x) == points[i].y
    {
      ValueOfLagrange(f, points, points[i].x);
      InterpolationThrough(f, points, i);
    }
  }

  // A polynomial through all the points, with no more coefficients than points, is the interpolating one.
  lemma LagrangeUnique<F(!new)>(f: Field<F>, p: seq<F>, points: seq<Point<F>>)
    requires f.Valid() && DistinctX(points) && |p| == |points| && Through(f, p, points)
    ensures p == Lagrange(f, points)
  {
    LagrangeThrough(f, points);
    var xs := seq(|points|, i requires 0 <= i < |points| => points[i].x);
    CoefficientsUnique(f, p, Lagrange(f, points), xs);
  }

  lemma InterpolationAgrees<F(!new)>(f: Field<F>, p: seq<F>, points: seq<Point<F>>, x: F)
    requires f.Valid() && DistinctX(points) && |p| <= |points| && Through(f, p, points)
    ensures Interpolation(f, points, x) == Value(f, p, x)
  {
    var padded := p + seq(|points| - |p|, _ => f.zero);
    forall i | 0 <= i < |points|
      ensures Value(f, padded, points[i].x) == points[i].y
    {
      ValueOfPadding(f, p, |points| - |p|, points[i].x);
    }
    LagrangeUnique(f, padded, points);
    ValueOfPadding(f, p, |points| - |p|, x);
    ValueOfLagrange(f, points, x);
  }

  // The order in which the points are listed does not matter.
  lemma InterpolationOrderIndependent<F(!new)>(f: Field<F>, points: seq<Point<F>>, others: seq<Point<F>>, x: F)
    requires f.Valid() && DistinctX(points) && DistinctX(others)
    requires |points| == |others| && forall i | 0 <= i < |others| :: others[i] in points
    ensures Interpolation(f, points, x) == Interpolation(f, others, x)
  {
    var p := Lagrange(f, points);
    LagrangeThrough(f, points);
    forall i | 0 <= i < |others|
      ensures Value(f, p, others[i].x) == others[i].y
    {
      assert others[i] in points;
    }
    InterpolationAgrees(f, p, others, x);
    ValueOfLagrange(f, points, x);
  }

  // ---------- How much a point too few leaves open ----------

  lemma ValueAtZero<F(!new)>(f: Field<F>, p: seq<F>)
    requires f.Valid() && |p| > 0
    ensures Value(f, p, f.zero) == p[0]
  {
    f.MulZero(Value(f, p[1..], f.zero));
    assert f.Laws(p[0], f.zero, f.zero);
  }

  // A polynomial with k coefficients, constant term s and a non-zero leading coefficient, through the points.
  ghost predicate IsCandidate<F(!new)>(f: Field<F>, p: seq<F>, k: nat, s: F, points: seq<Point<F>>)
    requires k > 0
  {
    && |p| == k
    && p[0] == s
    && p[k - 1] != f.zero
    && Through(f, p, points)
  }

  ghost predicate OffZero<F(!new)>(f: Field<F>, points: seq<Point<F>>) {
    forall i | 0 <= i < |points| :: points[i].x != f.zero
  }

  lemma WithZeroPoint<F(!new)>(f: Field<F>, s: F, points: seq<Point<F>>)
    requires f.Valid() && DistinctX(points) && OffZero(f, points)
    ensures DistinctX([Point(f.zero, s)] + points)
  {
  }

  // A polynomial of degree exactly |points| through the points misses the value that interpolation gives at 0.
  lemma ExactDegreeMisses<F(!new)>(f: Field<F>, p: seq<F>, s: F, points: seq<Point<F>>)
    requires f.Valid() && DistinctX(points) && OffZero(f, points)
    requires IsCandidate(f, p, |points| + 1, s, points)
    ensures s != Interpolation(f, points, f.zero)
    ensures p == Lagrange(f, [Point(f.zero, s)] + points)
  {
    var more := [Point(f.zero, s)] + points;
    WithZeroPoint(f, s, points);
    ValueAtZero(f, p);
    forall i | 0 <= i < |more|
      ensures Value(f, p, more[i].x) == more[i].y
    {
      assert i > 0 ==> more[i] == points[i - 1];
    }
    LagrangeUnique(f, p, more);
    if s == Interpolation(f, points, f.zero) {
      var low := Lagrange(f, points) + [f.zero];
      assert [f.zero] == seq(1, _ => f.zero);
      LagrangeThrough(f, points);
      forall i | 0 <= i < |more|
        ensures Value(f, low, more[i].x) == more[i].y
      {
        ValueOfPadding(f, Lagrange(f, points), 1, more[i].x);
        ValueOfLagrange(f, points, f.zero);
        assert i > 0 ==> more[i] == points[i - 1];
      }
      LagrangeUnique(f, low, more);
    }
  }

  // Any other value at 0 is reached, by exactly one polynomial.
  lemma OtherValuesReached<F(!new)>(f: Field<F>, s: F, points: seq<Point<F>>)
    requires f.Valid() && DistinctX(points) && OffZero(f, points)
    requires s != Interpolation(f, points, f.zero)
    ensures IsCandidate(f, Lagrange(f, [Point(f.zero, s)] + points), |points| + 1, s, points)
  {
    var more := [Point(f.zero, s)] + points;
    var p := Lagrange(f, more);
    WithZeroPoint(f, s, points);
    LagrangeThrough(f, more);
    assert Value(f, p, more[0].x) == more[0].y;
    ValueAtZero(f, p);
    forall i | 0 <= i < |points|
      ensures Value(f, p, points[i].x) == points[i].y
    {
      assert more[i + 1] == points[i];
      assert Value(f, p, more[i + 1].x) == more[i + 1].y;
    }
    if p[|points|] == f.zero {
      var low := p[..|points|];
      assert p == low + seq(1, _ => f.zero);
      forall i | 0 <= i < |points|
        ensures Value(f, low, points[i].x) == points[i].y
      {
        ValueOfPadding(f, low, 1, points[i].x);
      }
      ValueOfPadding(f, low, 1, f.zero);
      InterpolationAgrees(f, low, points, f.zero);
    }
  }

  // One point short of determining the polynomial, every constant term but one is still possible, each for
  // exactly one polynomial; the excluded one is what interpolating the points gives.
  lemma OnePointShort<F(!new)>(f: Field<F>, p: seq<F>, s: F, points: seq<Point<F>>)
    requires f.Valid() && DistinctX(points) && OffZero(f, points)
    ensures IsCandidate(f, p, |points| + 1, s, points)
            <==> s != Interpolation(f, points, f.zero) && p == Lagrange(f, [Point(f.zero, s)] + points)
  {
    if IsCandidate(f, p, |points| + 1, s, points) {
      ExactDegreeMisses(f, p, s, points);
    }
    if s != Interpolation(f, points, f.zero) {
      OtherValuesReached(f, s, points);
    }
  }

  // ---------- Two or more points short ----------

  // The product of X + x_j over the points.
  ghost function Annihilator<F(!new)>(f: Field<F>, points: seq<Point<F>>): (p: seq<F>)
    ensures |p| == |points| + 1
  {
    if points == [] then [f.one]
    else TimesLinear(f, Annihilator(f, points[..|points| - 1]), points[|points| - 1].x)
  }

  lemma {:induction false} AnnihilatorVanishes<F(!new)>(f: Field<F>, points: seq<Point<F>>, i: nat)
    requires f.Valid() && i < |points|
    ensures Value(f, Annihilator(f, points), points[i].x) == f.zero
    decreases |points|
  {
    var front, r := points[..|points| - 1], points[|points| - 1].x;
    var v := Value(f, Annihilator(f, front), points[i].x);
    ValueOfTimesLinear(f, Annihilator(f, front), r, points[i].x);
    if i < |front| {
      AnnihilatorVanishes(f, front, i);
      f.MulZero(f.add(points[i].x, r));
    } else {
      f.AddZeroIffEqual(r, r);
      f.MulZero(v);
    }
  }

  lemma {:induction false} AnnihilatorMonic<F(!new)>(f: Field<F>, points: seq<Point<F>>)
    requires f.Valid()
    ensures Annihilator(f, points)[|points|] == f.one
  {
    if points != [] {
      AnnihilatorMonic(f, points[..|points| - 1]);
      assert f.Laws(f.one, f.zero, f.zero);
    }
  }

  // Multiplying by a power of X keeps the roots.
  lemma {:induction false} ShiftKeepsRoot<F(!new)>(f: Field<F>, n: nat, p: seq<F>, x: F)
    requires f.Valid() && Value(f, p, x) == f.zero
    ensures Value(f, seq(n, _ => f.zero) + p, x) == f.zero
  {
    var shifted := seq(n, _ => f.zero) + p;
    if n == 0 {
      assert shifted == p;
    } else {
      assert shifted[1..] == seq(n - 1, _ => f.zero) + p;
      ShiftKeepsRoot(f, n - 1, p, x);
      f.MulZero(x);
      assert f.Laws(f.zero, f.zero, f.zero);
    }
  }

  // k coefficients, the first zero and the last one, with a root at every point.
  ghost function Filler<F(!new)>(f: Field<F>, k: nat, points: seq<Point<F>>): (p: seq<F>)
    requires |points| + 2 <= k
    ensures |p| == k && p[0] == f.zero
  {
    seq(k - 1 - |points|, _ => f.zero) + Annihilator(f, points)
  }

  // Adding the filler to a shorter polynomial gives it the full length and changes none of its values at the points.
  ghost function Filled<F(!new)>(f: Field<F>, k: nat, low: seq<F>, points: seq<Point<F>>): (p: seq<F>)
    requires |points| + 2 <= k && |low| < k
    ensures |p| == k
  {
    Sum(f, low + seq(k - |low|, _ => f.zero), Filler(f, k, points))
  }

  lemma FilledThrough<F(!new)>(f: Field<F>, k: nat, s: F, low: seq<F>, points: seq<Point<F>>)
    requires f.Valid() && |points| + 2 <= k && 0 < |low| < k && low[0] == s && Through(f, low, points)
    ensures IsCandidate(f, Filled(f, k, low, points), k, s, points)
  {
    var p := Filled(f, k, low, points);
    var padded := low + seq(k - |low|, _ => f.zero);
    AnnihilatorMonic(f, points);
    assert f.Laws(f.zero, f.one, f.one) && f.Laws(f.one, f.zero, f.zero) && f.Laws(s, f.zero, f.zero);
    forall i | 0 <= i < |points|
      ensures Value(f, p, points[i].x) == points[i].y
    {
      ValueOfSum(f, padded, Filler(f, k, points), points[i].x);
      ValueOfPadding(f, low, k - |low|, points[i].x);
      AnnihilatorVanishes(f, points, i);
      ShiftKeepsRoot(f, k - 1 - |points|, Annihilator(f, points), points[i].x);
      assert f.Laws(points[i].y, f.zero, f.zero);
    }
  }

  // With at least two points missing nothing is excluded; with one missing, only the interpolated value is.
  lemma FewPointsExcludeNothing<F(!new)>(f: Field<F>, k: nat, s: F, points: seq<Point<F>>)
    requires f.Valid() && DistinctX(points) && OffZero(f, points) && |points| < k
    ensures (exists p: seq<F> :: IsCandidate(f, p, k, s, points))
            <==> |points| + 2 <= k || s != Interpolation(f, points, f.zero)
  {
    var more := [Point(f.zero, s)] + points;
    if |points| + 2 <= k {
      var low := Lagrange(f, more);
      WithZeroPoint(f, s, points);
      LagrangeThrough(f, more);
      assert Value(f, low, more[0].x) == more[0].y;
      ValueAtZero(f, low);
      forall i | 0 <= i < |points|
        ensures Value(f, low, points[i].x) == points[i].y
      {
        assert more[i + 1] == points[i];
        assert Value(f, low, more[i + 1].x) == more[i + 1].y;
      }
      FilledThrough(f, k, s, low, points);
    } else {
      OnePointShort(f, Lagrange(f, more), s, points);
      if p: seq<F> :| IsCandidate(f, p, k, s, points) {
        OnePointShort(f, p, s, points);
      }
    }
  }
}
