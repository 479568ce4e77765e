/** Multiplying and dividing by adding and subtracting exponents: any table of the powers of a generator,
    together with its inverse table, makes a field. */
module LogTable {
  import opened Field

  // `step` multiplies by the generator; `exp` lists its powers from 0 to 255; `log` inverts `exp`.
  datatype LogTable<!F(!new)> = LogTable(zero: F, one: F, add: (F, F) -> F, step: F -> F, exp: nat -> F,
      log: F -> nat) {

    // What has to be checked of the addition, of the generator and of the tables.
    ghost predicate AddAssociates(a: F, b: F, c: F) {
      add(a, add(b, c)) == add(add(a, b), c)
    }

    ghost predicate AddCommutes(a: F, b: F) {
      add(a, b) == add(b, a)
    }

    ghost predicate AddZero(a: F) {
      add(a, zero) == a
    }

    ghost predicate AddSelf(a: F) {
      add(a, a) == zero
    }

    ghost predicate StepAdditive(a: F, b: F) {
      step(add(a, b)) == add(step(a), step(b))
    }

    ghost predicate ExpEntry(i: nat) {
      exp(i + 1) == step(exp(i))
    }

    ghost predicate LogEntry(a: F) {
      log(a) < 255 && exp(log(a)) == a
    }

    ghost predicate Valid() {
      && zero != one
      && exp(0) == one && exp(255) == one
      && (forall a: F, b: F, c: F :: AddAssociates(a, b, c))
      && (forall a: F, b: F :: AddCommutes(a, b))
      && (forall a: F :: AddZero(a))
      && (forall a: F :: AddSelf(a))
      && (forall a: F, b: F :: StepAdditive(a, b))
      && (forall i: nat | i < 255 :: ExpEntry(i))
      && (forall a: F | a != zero :: LogEntry(a))
      && (forall i: nat | i < 255 :: exp(i) != zero)
    }

    ghost function Mul(a: F, b: F): F {
      if a == zero || b == zero then zero else exp((log(a) + log(b)) % 255)
    }

    ghost function Div(a: F, b: F): F {
      if a == zero || b == zero then zero else exp((log(a) - log(b)) % 255)
    }

    ghost function Iterate(n: nat, a: F): F {
      if n == 0 then a else step(Iterate(n - 1, a))
    }

    lemma {:induction false} IterateAdditive(n: nat, a: F, c: F)
      requires Valid()
      ensures Iterate(n, add(a, c)) == add(Iterate(n, a), Iterate(n, c))
      decreases n
    {
      if n != 0 {
        IterateAdditive(n - 1, a, c);
        assert StepAdditive(Iterate(n - 1, a), Iterate(n - 1, c));
      }
    }

    lemma {:induction false} IterateZero(n: nat)
      requires Valid()
      ensures Iterate(n, zero) == zero
      decreases n
    {
      IterateAdditive(n, zero, zero);
      assert AddSelf(zero) && AddSelf(Iterate(n, zero));
    }

    lemma {:induction false} IterateSum(n: nat, m: nat, a: F)
      ensures Iterate(n + m, a) == Iterate(n, Iterate(m, a))
      decreases n
    {
      if n != 0 {
        IterateSum(n - 1, m, a);
      }
    }

    lemma {:induction false} ExpIsPower(i: nat)
      requires Valid() && i <= 255
      ensures exp(i) == Iterate(i, one)
      decreases i
    {
      if i != 0 {
        ExpIsPower(i - 1);
        assert ExpEntry(i - 1);
      }
    }

    // Every non-zero element is a power of the generator.
    lemma LogIsPower(a: F)
      requires Valid() && a != zero
      ensures log(a) < 255 && a == Iterate(log(a), one)
    {
      assert LogEntry(a);
      ExpIsPower(log(a));
    }

    lemma IterateCycle(a: F)
      requires Valid()
      ensures Iterate(255, a) == a
    {
      if a == zero {
        IterateZero(255);
      } else {
        LogIsPower(a);
        ExpIsPower(255);
        IterateSum(255, log(a), one);
        IterateSum(log(a), 255, one);
      }
    }

    lemma {:induction false} ExpOfMod(n: nat)
      requires Valid()
      ensures exp(n % 255) == Iterate(n, one)
      decreases n
    {
      if n < 255 {
        ExpIsPower(n);
      } else {
        IterateSum(n - 255, 255, one);
        IterateCycle(one);
        ExpOfMod(n - 255);
      }
    }

    // The table product by a non-zero element is the generator step, repeated as often as its logarithm says.
    lemma MulIsIterate(a: F, b: F)
      requires Valid() && a != zero
      ensures Mul(a, b) == Iterate(log(a), b)
    {
      if b == zero {
        IterateZero(log(a));
      } else {
        LogIsPower(b);
        ExpOfMod(log(a) + log(b));
        IterateSum(log(a), log(b), one);
      }
    }

    lemma MulNonZero(a: F, b: F)
      requires Valid() && a != zero && b != zero
      ensures Mul(a, b) != zero
    {
    }

    lemma MulDistributes(a: F, b: F, c: F)
      requires Valid()
      ensures Mul(a, add(b, c)) == add(Mul(a, b), Mul(a, c))
    {
      if a == zero {
        assert AddZero(zero);
      } else {
        MulIsIterate(a, b);
        MulIsIterate(a, c);
        MulIsIterate(a, add(b, c));
        IterateAdditive(log(a), b, c);
      }
    }

    lemma MulAssociates(a: F, b: F, c: F)
      requires Valid()
      ensures Mul(a, Mul(b, c)) == Mul(Mul(a, b), c)
    {
      if a != zero && b != zero {
        var n, m := log(a), log(b);
        MulIsIterate(b, c);
        MulIsIterate(a, Mul(b, c));
        IterateSum(n, m, c);
        MulNonZero(a, b);
        MulIsIterate(Mul(a, b), c);
        if c != zero {
          var l := log(c);
          LogIsPower(c);
          LogIsPower(Mul(a, b));
          ExpOfMod(n + m);
          IterateSum(n + m, l, one);
          IterateSum(log(Mul(a, b)), l, one);
          IterateSum(l, n + m, one);
          IterateSum(l, log(Mul(a, b)), one);
        }
      }
    }

    lemma MulOne(a: F)
      requires Valid()
      ensures Mul(a, one) == a
    {
      if a != zero {
        MulIsIterate(a, one);
        LogIsPower(a);
      }
    }

    lemma MulByGenerator(a: F)
      requires Valid()
      ensures Mul(exp(1), a) == step(a)
    {
      var g := exp(1);
      if a == zero {
        IterateZero(1);
        assert step(zero) == Iterate(1, zero);
      } else {
        var n := log(a);
        LogIsPower(g);
        LogIsPower(a);
        MulIsIterate(a, g);
        ExpIsPower(1);
        IterateSum(n, 1, one);
        IterateSum(1, n, one);
        assert Iterate(1, a) == step(Iterate(0, a));
      }
    }

    lemma ExponentOfQuotient(n: int, m: int)
      requires 0 <= n < 255 && 0 <= m < 255
      ensures 0 <= (n - m) % 255 < 255 && (m + (n - m) % 255) % 255 == n
    {
    }

    lemma DivInverts(a: F, b: F)
      requires Valid() && b != zero
      ensures Mul(Div(a, b), b) == a
    {
      if a != zero {
        assert LogEntry(a) && LogEntry(b);
        ExponentOfQuotient(log(a), log(b));
        var p: nat := (log(a) - log(b)) % 255;
        var q := Div(a, b);
        assert exp(p) != zero;
        ExpIsPower(p);
        MulIsIterate(b, q);
        IterateSum(log(b), p, one);
        ExpOfMod(log(b) + p);
      }
    }

    ghost function ToField(): Field<F> {
      Field(zero, one, add, (a: F, b: F) => Mul(a, b), (a: F, b: F) => Div(a, b))
    }

    lemma IsField()
      requires Valid()
      ensures ToField().Valid()
    {
      var f := ToField();
      forall a: F, b: F, c: F
        ensures f.Laws(a, b, c)
      {
        assert AddAssociates(a, b, c) && AddCommutes(a, b) && AddZero(a) && AddSelf(a);
        MulAssociates(a, b, c);
        MulOne(a);
        MulDistributes(a, b, c);
        if b != zero {
          DivInverts(a, b);
        }
      }
    }
  }
}
