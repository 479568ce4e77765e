/** Fields of characteristic two, over any carrier type: the laws, stated once, and what follows from them.
    Keeping the carrier abstract keeps bit-level reasoning out of the algebra. */
module Field {

  datatype Field<!F(!new)> = Field(zero: F, one: F, add: (F, F) -> F, mul: (F, F) -> F, div: (F, F) -> F) {

    // The field laws at three elements; every element is its own additive inverse.
    ghost predicate Laws(a: F, b: F, c: F) {
      && add(a, add(b, c)) == add(add(a, b), c)
      && add(a, b) == add(b, a)
      && add(a, zero) == a
      && add(a, a) == zero
      && mul(a, mul(b, c)) == mul(mul(a, b), c)
      && mul(a, b) == mul(b, a)
      && mul(a, one) == a
      && mul(a, add(b, c)) == add(mul(a, b), mul(a, c))
      && (b != zero ==> mul(div(a, b), b) == a)
    }

    ghost predicate Valid() {
      && zero != one
      && forall a: F, b: F, c: F :: Laws(a, b, c)
    }

    lemma AddSwap(a: F, b: F, c: F, d: F)
      requires Valid()
      ensures add(add(a, b), add(c, d)) == add(add(a, c), add(b, d))
    {
      assert Laws(a, b, add(c, d)) && Laws(b, c, d) && Laws(c, b, d) && Laws(a, c, add(b, d));
    }

    // Adding the same element twice changes nothing.
    lemma AddCancel(a: F, b: F)
      requires Valid()
      ensures add(add(a, b), b) == a && add(b, add(b, a)) == a
    {
      assert Laws(a, b, b) && Laws(b, b, a) && Laws(a, zero, zero) && Laws(zero, a, a) && Laws(b, zero, zero);
    }

    lemma AddZeroIffEqual(a: F, b: F)
      requires Valid()
      ensures add(a, b) == zero <==> a == b
    {
      AddCancel(a, b);
      assert Laws(b, b, b) && Laws(zero, b, b) && Laws(b, zero, zero);
    }

    lemma MulZero(a: F)
      requires Valid()
      ensures mul(a, zero) == zero && mul(zero, a) == zero
    {
      assert Laws(a, zero, zero) && Laws(zero, a, a) && Laws(zero, zero, zero);
      AddZeroIffEqual(mul(a, zero), mul(a, zero));
    }

    // One step of multiplying by shifting and adding: a * (low + 2 * half), with low 0 or 1.
    lemma ShiftAndAdd(a: F, low: F, half: F, two: F)
      requires Valid() && (low == zero || low == one)
      ensures mul(a, add(low, mul(half, two))) == add(if low != zero then a else zero, mul(mul(a, two), half))
    {
      MulZero(a);
      assert Laws(a, low, mul(half, two)) && Laws(a, two, half) && Laws(half, two, a) && Laws(a, one, a);
    }

    lemma NoZeroDivisors(a: F, b: F)
      requires Valid() && b != zero
      ensures mul(a, b) == zero ==> a == zero
    {
      var inverse := div(one, b);
      assert Laws(one, b, b) && Laws(a, b, inverse) && Laws(b, inverse, a) && Laws(a, one, a);
      MulZero(inverse);
    }

    lemma DivUnique(a: F, b: F, q: F)
      requires Valid() && b != zero && mul(q, b) == a
      ensures div(a, b) == q
    {
      var d := div(a, b);
      assert Laws(a, b, b) && Laws(b, d, q) && Laws(d, b, b) && Laws(q, b, b);
      AddZeroIffEqual(a, a);
      assert Laws(add(d, q), b, b);
      NoZeroDivisors(add(d, q), b);
      AddZeroIffEqual(d, q);
    }

    // Multiplying by a quotient is multiplying by the numerator and by the inverse of the denominator.
    lemma MulDiv(v: F, a: F, b: F)
      requires Valid() && b != zero
      ensures mul(v, div(a, b)) == mul(div(one, b), mul(a, v))
      ensures div(b, b) == one && div(zero, b) == zero
    {
      var i := div(one, b);
      assert Laws(one, b, b) && Laws(a, i, b) && Laws(a, one, a) && Laws(i, a, v) && Laws(v, mul(i, a), a)
          && Laws(a, i, i);
      DivUnique(a, b, mul(a, i));
      assert Laws(b, one, one) && Laws(one, b, b);
      DivUnique(b, b, one);
      MulZero(b);
      DivUnique(zero, b, zero);
    }
  }
}
