/** Arithmetic in GF(2^8) with modulus x^8 + x^4 + x^3 + x + 1: the table-driven operations of the program,
    and the proof that they are the field of section 4.2 of FIPS 197. */
module Gf256 {
  import opened Bytes
  import opened Gf256Tables
  import opened Field
  import opened LogTable

  // ---------- The program's operations ----------

  // Go's `^` on bytes: the addition of the field.
  function Xor(a: byte, b: byte): byte {
    a ^ b
  }

  function ExpAt(i: nat): byte
    requires i < 256
  {
    Exp(i as byte)
  }

  function LogOf(a: byte): (n: nat)
    ensures n < 256
  {
    Log(a) as nat
  }

  function Mul(e: byte, a: byte): byte {
    if e == 0 || a == 0 then 0 else ExpAt((LogOf(e) + LogOf(a)) % 255)
  }

  // Go's remainder truncates toward zero, hence the correction of a negative exponent.
  function GoRemainder(d: int): (p: int)
    ensures (if p < 0 then p + 255 else p) == d % 255
  {
    if d >= 0 then d % 255 else -((-d) % 255)
  }

  function Div(e: byte, a: byte): byte
    requires a != 0
  {
    if e == 0 then 0 else
      var p := GoRemainder(LogOf(e) - LogOf(a));
      ExpAt(if p < 0 then p + 255 else p)
  }

  // ---------- The reference: multiplication by shift and reduce ----------

  // Multiplication by the polynomial x, reduced modulo 0x11b.
  function Xtime(a: byte): byte {
    (a << 1) ^ (if a & 0x80 != 0 then 0x1b else 0)
  }

  // Section 4.2.1 of FIPS 197: the xor of Xtime^i(a) over the bits i set in b.
  function Times(a: byte, b: byte): byte
    decreases b
  {
    if b == 0 then 0 else (if b & 1 != 0 then a else 0) ^ Times(Xtime(a), b >> 1)
  }

  // ---------- What the tables hold, decided by bit-blasting ----------

  // Multiplication by the generator 3 = x + 1.
  function Triple(a: byte): byte {
    Xtime(a) ^ a
  }

  lemma ExpStep(i: byte)
    requires i != 0xff
    ensures Exp(i + 1) == Triple(Exp(i)) && Exp(i) != 0
  {
  }

  lemma LogInvertsExp(a: byte)
    requires a != 0
    ensures Log(a) != 0xff && Exp(Log(a)) == a
  {
  }

  lemma TripleLinear(a: byte, c: byte)
    ensures Triple(a ^ c) == Triple(a) ^ Triple(c)
  {
    if a & 0x80 != 0 {
      if c & 0x80 != 0 {} else {}
    } else {
      if c & 0x80 != 0 {} else {}
    }
  }

  // Every index below 256 is the value of a byte.
  lemma {:induction false} ByteOfIndex(i: nat) returns (b: byte)
    requires i < 256
    ensures b as int == i
  {
    b := 0;
    if i > 0 {
      b := ByteOfIndex(i - 1);
      b := b + 1;
    }
  }

  lemma ExpAtByte(b: byte)
    ensures ExpAt(b as int) == Exp(b)
  {
    hide Exp;
    assert (b as int) as byte == b;
  }

  lemma SuccOfByte(b: byte)
    requires b as int < 255
    ensures b != 0xff && (b + 1) as int == b as int + 1
  {
  }

  ghost const TABLE: LogTable<byte> :=
    LogTable(0, 1, (a: byte, b: byte) => a ^ b, (a: byte) => Triple(a),
             (i: nat) => if i <= 255 then ExpAt(i) else 0, (a: byte) => LogOf(a))

  // The field that the program computes in.
  ghost const GF: Field<byte> := TABLE.ToField()

  lemma TableAddAssociates(a: byte, b: byte, c: byte)
    ensures TABLE.AddAssociates(a, b, c)
  {
  }

  lemma TableStepIsTriple(a: byte)
    ensures TABLE.step(a) == Triple(a)
  {
  }

  lemma TableAddIsXor(a: byte, b: byte)
    ensures TABLE.add(a, b) == a ^ b
  {
  }

  lemma TableStepAdditive(a: byte, b: byte)
    ensures TABLE.StepAdditive(a, b)
  {
    TripleLinear(a, b);
    TableAddIsXor(a, b);
    TableAddIsXor(Triple(a), Triple(b));
    TableStepIsTriple(a);
    TableStepIsTriple(b);
    TableStepIsTriple(a ^ b);
  }

  lemma TableExpIs(b: byte)
    ensures TABLE.exp(b as int) == Exp(b)
  {
    hide Exp, ExpAt;
    ExpAtByte(b);
  }

  lemma TableExpEntry(i: nat)
    requires i < 255
    ensures TABLE.ExpEntry(i)
  {
    hide Exp, ExpAt, Triple;
    var b := ByteOfIndex(i);
    SuccOfByte(b);
    ExpStep(b);
    TableExpIs(b);
    TableExpIs(b + 1);
    TableStepIsTriple(Exp(b));
  }

  lemma TableExpNonZero(i: nat)
    requires i < 255
    ensures TABLE.exp(i) != 0
  {
    hide Exp, ExpAt, Triple;
    var b := ByteOfIndex(i);
    SuccOfByte(b);
    ExpStep(b);
    TableExpIs(b);
  }

  lemma TableLogEntry(a: byte)
    requires a != 0
    ensures TABLE.LogEntry(a)
  {
    hide Exp, Log, ExpAt;
    LogInvertsExp(a);
    TableExpIs(Log(a));
  }

  lemma TableEnds()
    ensures TABLE.exp(0) == 1 && TABLE.exp(255) == 1
  {
    hide Exp, ExpAt;
    TableExpIs(0);
    TableExpIs(0xff);
    ExpEnds();
  }

  lemma ExpEnds()
    ensures Exp(0) == 1 && Exp(0xff) == 1
  {
  }

  lemma TableIsValid()
    ensures TABLE.Valid()
  {
    hide ExpAt, LogOf, Triple;
    TableEnds();
    forall a: byte, b: byte, c: byte
      ensures TABLE.AddAssociates(a, b, c)
    {
      TableAddAssociates(a, b, c);
    }
    forall a: byte, b: byte
      ensures TABLE.StepAdditive(a, b)
    {
      TableStepAdditive(a, b);
    }
    forall i: nat | i < 255
      ensures TABLE.ExpEntry(i) && TABLE.exp(i) != TABLE.zero
    {
      TableExpEntry(i);
      TableExpNonZero(i);
    }
    forall a: byte | a != 0
      ensures TABLE.LogEntry(a)
    {
      TableLogEntry(a);
    }
  }

  // ---------- The program's operations are those of the field ----------

  lemma FieldIsValid()
    ensures GF.Valid() && GF.zero == 0 && GF.one == 1
  {
    TableIsValid();
    TABLE.IsField();
  }

  lemma AddIsXor(a: byte, b: byte)
    ensures GF.add(a, b) == Xor(a, b)
  {
  }

  lemma MulIsFieldMul(e: byte, a: byte)
    ensures Mul(e, a) == GF.mul(e, a)
  {
    hide ExpAt, LogOf;
  }

  lemma DivIsFieldDiv(e: byte, a: byte)
    requires a != 0
    ensures Div(e, a) == GF.div(e, a)
  {
    hide ExpAt, LogOf;
  }

  // ---------- The table product is the product of FIPS 197 ----------

  lemma LowBitAndRest(b: byte)
    ensures b == Xor(b & 1, Xtime(b >> 1)) && (b & 1 == 0 || b & 1 == 1)
  {
  }

  lemma TimesUnfolds(a: byte, b: byte)
    requires b != 0
    ensures Times(a, b) == Xor(if b & 1 != 0 then a else 0, Times(Xtime(a), b >> 1))
  {
  }

  // One step of multiplying by shifting and adding, for b = low + 2 * half.
  lemma TimesStep(f: Field<byte>, a: byte, b: byte, low: byte, half: byte)
    requires f.Valid() && f.zero == 0 && f.one == 1
    requires forall x: byte, y: byte :: f.add(x, y) == Xor(x, y)
    requires forall x: byte :: f.mul(x, 2) == Xtime(x)
    requires b == Xor(low, Xtime(half)) && (low == 0 || low == 1)
    ensures f.mul(a, b) == Xor(if low != 0 then a else 0, f.mul(Xtime(a), half))
  {
    hide Xtime, Xor;
    f.ShiftAndAdd(a, low, half, 2);
  }

  // Any field whose addition is xor and in which 2 multiplies as Xtime multiplies as Times.
  lemma {:induction false} TimesIsMul(f: Field<byte>, a: byte, b: byte)
    requires f.Valid() && f.zero == 0 && f.one == 1
    requires forall x: byte, y: byte :: f.add(x, y) == Xor(x, y)
    requires forall x: byte :: f.mul(x, 2) == Xtime(x)
    ensures Times(a, b) == f.mul(a, b)
    decreases b
  {
    hide Xtime, Xor;
    if b == 0 {
      f.MulZero(a);
    } else {
      TimesIsMul(f, Xtime(a), b >> 1);
      hide Times;
      LowBitAndRest(b);
      TimesUnfolds(a, b);
      TimesStep(f, a, b, b & 1, b >> 1);
    }
  }

  lemma XtimeFromTriple(a: byte)
    ensures Triple(a) ^ a == Xtime(a)
  {
    hide Xtime;
  }

  lemma MulByTwo(a: byte)
    ensures GF.mul(a, 2) == Xtime(a)
  {
    hide Triple, Xtime, ExpAt, LogOf;
    FieldIsValid();
    TableIsValid();
    TableGenerator();
    TABLE.MulByGenerator(a);
    TableStepIsTriple(a);
    assert GF.mul(3, a) == Triple(a);
    assert GF.Laws(a, 3, 1) && GF.Laws(a, a, a);
    AddIsXor(3, 1);
    AddIsXor(Triple(a), a);
    XtimeFromTriple(a);
  }

  lemma TableGenerator()
    ensures TABLE.exp(1) == 3
  {
  }

  lemma MulIsTimes(e: byte, a: byte)
    ensures Mul(e, a) == Times(e, a)
  {
    hide Xor, Xtime, Times, ExpAt, LogOf, Mul;
    FieldIsValid();
    forall x: byte, y: byte
      ensures GF.add(x, y) == Xor(x, y)
    {
      AddIsXor(x, y);
    }
    forall x: byte
      ensures GF.mul(x, 2) == Xtime(x)
    {
      MulByTwo(x);
    }
    TimesIsMul(GF, e, a);
    MulIsFieldMul(e, a);
  }
}
