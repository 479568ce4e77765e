/** Shamir's secret sharing: the program's evaluation, generation and interpolation of polynomials over GF(2^8),
    and its splitting and combining of byte strings. */
module Sss {
  import opened Bytes
  import opened Gf256
  import LogTable
  import opened Polynomial
  import opened Sequences

  datatype Result<+T> = Ok(value: T) | Err(error: Error)

  datatype Error = InvalidCount | InvalidThreshold | ShortRead

  // ---------- Evaluation ----------

  method Eval(p: seq<byte>, x: byte) returns (result: byte)
    ensures result == Value(GF, p, x)
  {
    hide Xor, Mul, LogTable.LogTable.ToField;
    FieldIsValid();
    result := 0;
    for i := 1 to |p| + 1
      invariant result == Value(GF, p[|p| - i + 1..], x)
    {
      HornerStep(p, |p| - i, x);
      result := Xor(Mul(result, x), p[|p| - i]);
    }
    assert p[0..] == p;
  }

  lemma HornerStep(p: seq<byte>, k: nat, x: byte)
    requires k < |p|
    ensures Xor(Mul(Value(GF, p[k + 1..], x), x), p[k]) == Value(GF, p[k..], x)
  {
    hide Xor, Mul, LogTable.LogTable.ToField;
    var v := Value(GF, p[k + 1..], x);
    FieldIsValid();
    MulIsFieldMul(v, x);
    AddIsXor(Mul(v, x), p[k]);
    assert p[k..][1..] == p[k + 1..];
    assert GF.Laws(v, x, x) && GF.Laws(p[k], GF.mul(x, v), x);
  }

  // ---------- Interpolation ----------

  method Interpolate(points: seq<Point<byte>>, x: byte) returns (value: byte)
    requires DistinctX(points)
    ensures value == Interpolation(GF, points, x)
  {
    hide Xor, Mul, Div, Weight, WeightedSum;
    SumStart(points, x);
    value := 0;
    for i := 0 to |points|
      invariant value == WeightedSum(GF, points, i, x)
    {
      var a := points[i];
      var weight: byte := 1;
      WeightStart(points, i, x);
      for j := 0 to |points|
        invariant weight == Weight(GF, points, i, j, x)
      {
        var b := points[j];
        WeightStep(points, i, j, x);
        if i != j {
          var top := Xor(x, b.x);
          var bottom := Xor(a.x, b.x);
          var factor := Div(top, bottom);
          weight := Mul(weight, factor);
        }
      }
      SumStep(points, i, x);
      value := Xor(value, Mul(weight, a.y));
    }
  }

  lemma WeightStart(points: seq<Point<byte>>, i: nat, x: byte)
    requires i < |points|
    ensures Weight(GF, points, i, 0, x) == 1
  {
    FieldIsValid();
  }

  lemma WeightStep(points: seq<Point<byte>>, i: nat, j: nat, x: byte)
    requires DistinctX(points) && i < |points| && j < |points|
    ensures i == j ==> Weight(GF, points, i, j + 1, x) == Weight(GF, points, i, j, x)
    ensures i != j ==>
              && Xor(points[i].x, points[j].x) != 0
              && Weight(GF, points, i, j + 1, x)
                 == Mul(Weight(GF, points, i, j, x), Div(Xor(x, points[j].x), Xor(points[i].x, points[j].x)))
  {
    hide Xor, Mul, Div, LogTable.LogTable.ToField;
    if i != j {
      FieldIsValid();
      DenominatorNonZero(GF, points, i, j);
      AddIsXor(x, points[j].x);
      AddIsXor(points[i].x, points[j].x);
      QuotientIsFieldQuotient(Weight(GF, points, i, j, x), Xor(x, points[j].x), Xor(points[i].x, points[j].x));
    }
  }

  lemma QuotientIsFieldQuotient(weight: byte, top: byte, bottom: byte)
    requires bottom != 0
    ensures Mul(weight, Div(top, bottom)) == GF.mul(weight, GF.div(top, bottom))
  {
    hide Mul, Div, LogTable.LogTable.ToField;
    DivIsFieldDiv(top, bottom);
    MulIsFieldMul(weight, Div(top, bottom));
  }

  lemma SumStart(points: seq<Point<byte>>, x: byte)
    ensures WeightedSum(GF, points, 0, x) == 0
  {
    FieldIsValid();
  }

  lemma SumStep(points: seq<Point<byte>>, i: nat, x: byte)
    requires i < |points|
    ensures WeightedSum(GF, points, i + 1, x)
         == Xor(WeightedSum(GF, points, i, x), Mul(Weight(GF, points, i, |points|, x), points[i].y))
  {
    hide Xor, Mul, LogTable.LogTable.ToField;
    var weight := Weight(GF, points, i, |points|, x);
    MulIsFieldMul(weight, points[i].y);
    AddIsXor(WeightedSum(GF, points, i, x), Mul(weight, points[i].y));
  }

  // ---------- Generation ----------

  // A source of random bytes that may run dry.
  class Reader {
    var rest: seq<byte>

    constructor (bytes: seq<byte>)
      ensures rest == bytes
    {
      rest := bytes;
    }

    // Reads all n bytes, or fails after consuming whatever there was.
    method ReadFull(n: nat) returns (r: Result<seq<byte>>)
      modifies this
      ensures n <= |old(rest)| ==> r == Ok(old(rest)[..n]) && rest == old(rest)[n..]
      ensures n > |old(rest)| ==> r == Err(ShortRead) && rest == []
    {
      if n <= |rest| {
        r := Ok(rest[..n]);
        rest := rest[n..];
      } else {
        r := Err(ShortRead);
        rest := [];
      }
    }
  }

  // A polynomial together with the random bytes left over, or the end of the stream.
  datatype Draw = Generated(poly: seq<byte>, rest: seq<byte>) | Exhausted

  // How many random bytes the middle coefficients take: degree - 1, as a byte, so 255 at degree 0.
  function MiddleCount(degree: nat): nat {
    if degree == 0 then 255 else degree - 1
  }

  // The leading coefficient is the next non-zero byte.
  ghost function Leading(head: seq<byte>, stream: seq<byte>): Draw {
    if stream == [] then Exhausted
    else if stream[0] == 0 then Leading(head, stream[1..])
    else Generated(head + [stream[0]], stream[1..])
  }

  // All coefficients but the leading one. At degree 0 there are none, and x is overwritten.
  ghost function Head(degree: nat, x: byte, middle: seq<byte>): (head: seq<byte>)
    requires |middle| == MiddleCount(degree)
    ensures |head| == degree
  {
    if degree == 0 then [] else [x] + middle
  }

  ghost function Generation(degree: nat, x: byte, stream: seq<byte>): Draw {
    var m := MiddleCount(degree);
    if |stream| < m then Exhausted else Leading(Head(degree, x, stream[..m]), stream[m..])
  }

  // Draws the leading coefficient, passing over zero bytes so that the degree is exact.
  method NextNonZero(ghost head: seq<byte>, rand: Reader) returns (r: Result<byte>)
    modifies rand
    ensures match Leading(head, old(rand.rest))
            case Generated(p, rest) => r.Ok? && p == head + [r.value] && rand.rest == rest
            case Exhausted => r == Err(ShortRead) && rand.rest == []
  {
    while true
      invariant Leading(head, rand.rest) == Leading(head, old(rand.rest))
      decreases |rand.rest|
    {
      var read := rand.ReadFull(1);
      if read.Err? {
        return Err(read.error);
      }
      if read.value[0] != 0 {
        return Ok(read.value[0]);
      }
    }
  }

  // The array of coefficients, with all but the leading one filled in.
  method FillMiddle(degree: nat, x: byte, buf: seq<byte>) returns (result: array<byte>)
    requires |buf| == MiddleCount(degree)
    ensures fresh(result) && result.Length == degree + 1 && result[..degree] == Head(degree, x, buf)
  {
    result := new byte[degree + 1](_ => 0);
    result[0] := x;
    var i := 1;
    while i < degree
      invariant 1 <= i <= degree || i == 1
      invariant result[0] == x
      invariant forall j | 1 <= j < i && j < degree :: result[j] == buf[j - 1]
    {
      result[i] := buf[i - 1];
      i := i + 1;
    }
  }

  lemma GenerationIs(degree: nat, x: byte, stream: seq<byte>)
    ensures var m := MiddleCount(degree);
            Generation(degree, x, stream)
            == if |stream| < m then Exhausted else Leading(Head(degree, x, stream[..m]), stream[m..])
  {
    hide Leading, Head;
  }

  method Generate(degree: nat, x: byte, rand: Reader) returns (r: Result<seq<byte>>)
    requires degree < 255
    modifies rand
    ensures match Generation(degree, x, old(rand.rest))
            case Generated(p, rest) => r == Ok(p) && rand.rest == rest
            case Exhausted => r == Err(ShortRead) && rand.rest == []
  {
    hide Leading, Head, Generation;
    GenerationIs(degree, x, rand.rest);
    var read := rand.ReadFull(MiddleCount(degree));
    if read.Err? {
      return read;
    }
    var result := FillMiddle(degree, x, read.value);
    ghost var head := Head(degree, x, read.value);
    var leading := NextNonZero(head, rand);
    if leading.Err? {
      return Err(leading.error);
    }
    result[degree] := leading.value;
    LastSet(result[..], head, leading.value);
    return Ok(result[..]);
  }

  lemma LastSet(p: seq<byte>, head: seq<byte>, top: byte)
    requires |p| == |head| + 1 && p[..|head|] == head && p[|head|] == top
    ensures p == head + [top]
  {
  }

  // ---------- Splitting ----------

  // One polynomial for each byte of the secret, drawn in order.
  datatype Draws = Drawn(polys: seq<seq<byte>>, rest: seq<byte>) | OutOfBytes

  ghost function Polynomials(degree: nat, secret: seq<byte>, stream: seq<byte>): Draws {
    if secret == [] then Drawn([], stream) else
      var last := |secret| - 1;
      match Polynomials(degree, secret[..last], stream)
      case OutOfBytes => OutOfBytes
      case Drawn(polys, rest) =>
        match Generation(degree, secret[last], rest)
        case Exhausted => OutOfBytes
        case Generated(p, rest') => Drawn(polys + [p], rest')
  }

  // Go's byte where it counts rather than being a field element.
  type uint8 = n: nat | n < 256

  function AsByte(x: uint8): byte {
    x as byte
  }

  // The share of holder x: the value at x of each polynomial.
  ghost function Share(polys: seq<seq<byte>>, x: uint8): (share: seq<byte>)
    ensures |share| == |polys|
  {
    seq(|polys|, i requires 0 <= i < |polys| => Value(GF, polys[i], AsByte(x)))
  }

  type Shares = map<uint8, seq<byte>>

  // What the map of shares holds once the polynomials have been evaluated at 1..n. The map stays empty when
  // the secret is.
  ghost predicate IsShareMap(shares: Shares, n: uint8, polys: seq<seq<byte>>) {
    && (forall h: uint8 :: h in shares <==> polys != [] && 1 <= h <= n)
    && (forall h: uint8 | h in shares :: shares[h] == Share(polys, h))
  }

  // Half way through one byte of the secret: holders below x have one entry more than the others.
  ghost predicate IsGrowing(shares: Shares, n: uint8, polys: seq<seq<byte>>, p: seq<byte>, x: uint8) {
    && (forall h: uint8 :: h in shares <==> 1 <= h <= n && (polys != [] || h < x))
    && (forall h: uint8 | h in shares :: shares[h] == Share(if h < x then polys + [p] else polys, h))
  }

  // One more byte for holder x, whose entry is made if there is none.
  function Grow(shares: Shares, x: uint8, y: byte): Shares {
    shares[x := (if x in shares then shares[x] else []) + [y]]
  }

  lemma ShareOfMore(polys: seq<seq<byte>>, p: seq<byte>, x: uint8)
    ensures Share(polys + [p], x) == Share(polys, x) + [Value(GF, p, AsByte(x))]
  {
    hide Value, AsByte;
  }

  lemma GrowStep(shares: Shares, n: uint8, polys: seq<seq<byte>>, p: seq<byte>, x: uint8)
    requires 1 <= x <= n < 255 && IsGrowing(shares, n, polys, p, x)
    ensures IsGrowing(Grow(shares, x, Value(GF, p, AsByte(x))), n, polys, p, x + 1)
  {
    hide Value, AsByte;
    ShareOfMore(polys, p, x);
    assert polys == [] ==> Share(polys, x) == [];
  }

  // Where the counter of the loop over the holders stands after some turns: a byte, starting at 1.
  function HolderAfter(turns: nat): uint8 {
    if turns == 0 then 1 else (HolderAfter(turns - 1) + 1) % 256
  }

  // The loop over the holders runs for ever exactly when n is the largest byte; otherwise it takes n turns.
  lemma {:induction false} HolderLoopEnds(n: uint8)
    ensures (forall turns: nat :: HolderAfter(turns) <= n) <==> n == 255
    ensures n < 255 ==> HolderAfter(n) > n && forall turns: nat | turns < n :: HolderAfter(turns) <= n
  {
    if n < 255 {
      HolderCounts(n);
      forall turns: nat | turns < n
        ensures HolderAfter(turns) <= n
      {
        HolderCounts(turns);
      }
    }
  }

  lemma {:induction false} HolderCounts(turns: nat)
    requires turns < 255
    ensures HolderAfter(turns) == turns + 1
  {
    if turns > 0 {
      HolderCounts(turns - 1);
    }
  }

  // Whether splitting ends: with n = 255 only if it never gets as far as the loop over the holders.
  ghost predicate Ends(n: uint8, k: uint8, secret: seq<byte>, stream: seq<byte>) {
    n == 255 && k > 1 && secret != [] ==> Generation(k - 1, secret[0], stream) == Exhausted
  }

  // The loop over the holders: each gets the value of the polynomial at its number.
  method GiveByte(n: uint8, p: seq<byte>, before: Shares, ghost polys: seq<seq<byte>>) returns (shares: Shares)
    requires n < 255 && IsShareMap(before, n, polys)
    ensures IsShareMap(shares, n, polys + [p])
  {
    hide Value, AsByte;
    shares := before;
    var x := 1;
    while x <= n
      invariant 1 <= x <= n + 1
      invariant IsGrowing(shares, n, polys, p, x)
    {
      var y := Eval(p, AsByte(x));
      GrowStep(shares, n, polys, p, x);
      shares := Grow(shares, x, y);
      x := x + 1;
    }
  }

  method Split(n: uint8, k: uint8, secret: seq<byte>, rand: Reader) returns (r: Result<Shares>)
    requires Ends(n, k, secret, rand.rest)
    modifies rand
    ensures n <= 2 ==> r == Err(InvalidCount) && rand.rest == old(rand.rest)
    ensures n > 2 && k <= 1 ==> r == Err(InvalidThreshold) && rand.rest == old(rand.rest)
    ensures n > 2 && k > 1 ==>
              match Polynomials(k - 1, secret, old(rand.rest))
              case Drawn(polys, rest) => r.Ok? && IsShareMap(r.value, n, polys) && rand.rest == rest
              case OutOfBytes => r == Err(ShortRead)
  {
    hide Value, Share, Generation, AsByte;
    if n <= 2 {
      return Err(InvalidCount);
    }
    if k <= 1 {
      return Err(InvalidThreshold);
    }
    var shares: Shares := map[];
    ghost var polys := [];
    for i := 0 to |secret|
      invariant Polynomials(k - 1, secret[..i], old(rand.rest)) == Drawn(polys, rand.rest)
      invariant IsShareMap(shares, n, polys)
    {
      assert secret[..i + 1][..i] == secret[..i];
      var p := Generate(k - 1, secret[i], rand);
      if p.Err? {
        OutOfBytesEarly(k - 1, secret, i + 1, old(rand.rest));
        return Err(p.error);
      }
      assert n < 255 by {
        FirstDraw(k - 1, secret, i, old(rand.rest));
      }
      shares := GiveByte(n, p.value, shares, polys);
      polys := polys + [p.value];
    }
    assert secret[..|secret|] == secret;
    return Ok(shares);
  }

  // When the bytes run out on the first polynomial they run out on all.
  lemma {:induction false} FirstDraw(degree: nat, secret: seq<byte>, i: nat, stream: seq<byte>)
    requires i < |secret|
    ensures Generation(degree, secret[0], stream) == Exhausted
            ==> Polynomials(degree, secret[..i + 1], stream) == OutOfBytes
  {
    hide Generation;
    assert secret[..i + 1][..i] == secret[..i];
    if i > 0 {
      FirstDraw(degree, secret, i - 1, stream);
    } else {
      assert secret[..0] == [];
    }
  }

  lemma {:induction false} OutOfBytesEarly(degree: nat, secret: seq<byte>, n: nat, stream: seq<byte>)
    requires n <= |secret| && Polynomials(degree, secret[..n], stream) == OutOfBytes
    ensures Polynomials(degree, secret, stream) == OutOfBytes
    decreases |secret| - n
  {
    if n < |secret| {
      assert secret[..n + 1][..n] == secret[..n];
      OutOfBytesEarly(degree, secret, n + 1, stream);
    } else {
      assert secret[..n] == secret;
    }
  }

  lemma AsByteInjective(a: uint8, b: uint8)
    ensures AsByte(a) == AsByte(b) ==> a == b
  {
    AsByteOf(a);
    AsByteOf(b);
  }

  lemma AsByteOf(a: uint8)
    ensures AsByte(a) as int == a
  {
    var x := ByteOfIndex(a);
    assert (x as int) as byte == x;
  }

  lemma AsByteZero(a: uint8)
    ensures AsByte(a) == 0 ==> a == 0
  {
    AsByteOf(a);
  }

  // ---------- Combining ----------

  ghost predicate SameLength(shares: Shares) {
    forall h: uint8, g: uint8 | h in shares && g in shares :: |shares[h]| == |shares[g]|
  }

  // An order in which a loop over the map may meet its keys.
  ghost predicate Listing(shares: Shares, keys: seq<uint8>) {
    && |keys| == |shares|
    && Distinct(keys)
    && forall j | 0 <= j < |keys| :: keys[j] in shares
  }

  // The points that the shares contribute at position i of the secret.
  ghost function PointsAt(shares: Shares, keys: seq<uint8>, i: nat): (points: seq<Point<byte>>)
    requires forall j | 0 <= j < |keys| :: keys[j] in shares && i < |shares[keys[j]]|
    ensures |points| == |keys|
  {
    seq(|keys|, j requires 0 <= j < |keys| => Point(AsByte(keys[j]), shares[keys[j]][i]))
  }

  // What combining returns, whatever the order of iteration: as many bytes as some share has and every share
  // can supply.
  ghost predicate IsCombination(shares: Shares, secret: seq<byte>) {
    && (if shares.Keys == {} then secret == [] else exists h: uint8 :: h in shares && |shares[h]| == |secret|)
    && (forall h: uint8 | h in shares :: |secret| <= |shares[h]|)
    && (forall keys: seq<uint8>, i | Listing(shares, keys) && 0 <= i < |secret| ::
          secret[i] == Interpolation(GF, PointsAt(shares, keys, i), 0))
  }

  lemma PointsDistinct(shares: Shares, keys: seq<uint8>, i: nat)
    requires Distinct(keys) && forall j | 0 <= j < |keys| :: keys[j] in shares && i < |shares[keys[j]]|
    ensures DistinctX(PointsAt(shares, keys, i))
  {
    hide AsByte;
    var points := PointsAt(shares, keys, i);
    forall a, b | 0 <= a < b < |points|
      ensures points[a].x != points[b].x
    {
      AsByteInjective(keys[a], keys[b]);
    }
  }

  lemma ListingCovers(shares: Shares, keys: seq<uint8>, h: uint8)
    requires Listing(shares, keys) && h in shares
    ensures h in keys
  {
    SizeOfDistinct(keys);
    SubsetOfSameSize((set g | g in keys), shares.Keys);
    assert h in (set g | g in keys);
  }

  // Two orders of iteration over the same shares interpolate to the same value.
  lemma ListingOrderIndependent(shares: Shares, keys: seq<uint8>, others: seq<uint8>, i: nat)
    requires Listing(shares, keys) && Listing(shares, others)
    requires forall h: uint8 | h in shares :: i < |shares[h]|
    ensures Interpolation(GF, PointsAt(shares, keys, i), 0) == Interpolation(GF, PointsAt(shares, others, i), 0)
  {
    hide AsByte, Interpolation, LogTable.LogTable.ToField;
    FieldIsValid();
    PointsDistinct(shares, keys, i);
    PointsDistinct(shares, others, i);
    var points, others' := PointsAt(shares, keys, i), PointsAt(shares, others, i);
    forall a | 0 <= a < |others'|
      ensures others'[a] in points
    {
      ListingCovers(shares, keys, others[a]);
      var b :| 0 <= b < |keys| && keys[b] == others[a];
      assert points[b] == others'[a];
    }
    InterpolationOrderIndependent(GF, points, others', 0);
  }

  // A combined secret, or the fault of indexing past the end of a share.
  datatype Combined = Combination(secret: seq<byte>) | IndexFault

  // The points at one position, in some order of iteration, or a fault at a share that is too short.
  method CollectPoints(shares: Shares, i: nat) returns (ok: bool, points: seq<Point<byte>>, ghost keys: seq<uint8>)
    ensures ok == forall h: uint8 | h in shares :: i < |shares[h]|
    ensures ok ==> Listing(shares, keys) && points == PointsAt(shares, keys, i)
  {
    hide AsByte, PointsAt;
    var buffer := new Point<byte>[|shares|];
    var p := 0;
    var remaining := shares.Keys;
    keys := [];
    while remaining != {}
      invariant p == |keys| && p + |remaining| == |shares| && remaining <= shares.Keys
      invariant Distinct(keys) && forall j | 0 <= j < p :: keys[j] in shares && keys[j] !in remaining
      invariant forall h: uint8 | h in shares :: h in remaining || i < |shares[h]|
      invariant forall j | 0 <= j < p :: i < |shares[keys[j]]|
      invariant buffer[..p] == PointsAt(shares, keys, i)
      decreases remaining
    {
      var k :| k in remaining;
      if i >= |shares[k]| {
        return false, [], keys;
      }
      PointsAtMore(shares, keys, k, i);
      buffer[p] := Point(AsByte(k), shares[k][i]);
      p := p + 1;
      remaining := remaining - {k};
      keys := keys + [k];
    }
    assert buffer[..] == buffer[..p];
    return true, buffer[..], keys;
  }

  // The share met first gives the length; a shorter share makes the program fault.
  method Combine(shares: Shares) returns (r: Combined, ghost first: uint8)
    ensures shares.Keys == {} ==> r == Combination([])
    ensures shares.Keys != {} ==>
              && first in shares
              && (r.IndexFault? <==> exists h: uint8 :: h in shares && |shares[h]| < |shares[first]|)
              && (r.Combination? ==> |r.secret| == |shares[first]|)
    ensures r.Combination? ==> IsCombination(shares, r.secret)
  {
    hide Interpolation, PointsAt;
    var length := 0;
    first := 0;
    if shares.Keys != {} {
      var h :| h in shares.Keys;
      length := |shares[h]|;
      first := h;
    }
    var secret := new byte[length](_ => 0);
    for i := 0 to length
      invariant forall h: uint8 | h in shares :: i <= |shares[h]|
      invariant forall keys: seq<uint8>, j | Listing(shares, keys) && 0 <= j < i ::
                  secret[j] == Interpolation(GF, PointsAt(shares, keys, j), 0)
    {
      var ok, points, keys := CollectPoints(shares, i);
      if !ok {
        return IndexFault, first;
      }
      PointsDistinct(shares, keys, i);
      secret[i] := Interpolate(points, 0);
      forall others: seq<uint8> | Listing(shares, others)
        ensures secret[i] == Interpolation(GF, PointsAt(shares, others, i), 0)
      {
        ListingOrderIndependent(shares, keys, others, i);
      }
    }
    return Combination(secret[..]), first;
  }

  lemma PointsAtMore(shares: Shares, keys: seq<uint8>, k: uint8, i: nat)
    requires k in shares && i < |shares[k]|
    requires forall j | 0 <= j < |keys| :: keys[j] in shares && i < |shares[keys[j]]|
    ensures PointsAt(shares, keys + [k], i) == PointsAt(shares, keys, i) + [Point(AsByte(k), shares[k][i])]
  {
    hide AsByte;
  }

  // ---------- What splitting and combining promise ----------

  // Every polynomial with a non-zero leading coefficient is drawn from the bytes of its other coefficients.
  lemma GenerateFrom(degree: nat, p: seq<byte>, tail: seq<byte>)
    requires degree >= 1 && |p| == degree + 1 && p[degree] != 0
    ensures Generation(degree, p[0], p[1..] + tail) == Generated(p, tail)
  {
    var stream, m := p[1..] + tail, degree - 1;
    assert stream[..m] == p[1..degree] && stream[m..] == [p[degree]] + tail;
    var head := [p[0]] + p[1..degree];
    LastSet(p, head, p[degree]);
    GenerationIs(degree, p[0], stream);
    assert stream[m..][0] == p[degree] && stream[m..][1..] == tail;
  }

  // The leading coefficient stands at place i of the stream: the first byte from m on that is not zero.
  ghost predicate FirstNonZero(stream: seq<byte>, m: nat, i: int) {
    m <= i < |stream| && stream[i] != 0 && forall j | m <= j < i :: stream[j] == 0
  }

  lemma {:induction false} LeadingIsFirstNonZero(head: seq<byte>, stream: seq<byte>, m: nat)
    requires m <= |stream|
    ensures match Leading(head, stream[m..])
            case Generated(p, rest) =>
              exists i :: FirstNonZero(stream, m, i) && p == head + [stream[i]] && rest == stream[i + 1..]
            case Exhausted => forall j | m <= j < |stream| :: stream[j] == 0
    decreases |stream| - m
  {
    if m < |stream| {
      assert stream[m..][1..] == stream[m + 1..] && stream[m..][0] == stream[m];
      if stream[m] == 0 {
        LeadingIsFirstNonZero(head, stream, m + 1);
        match Leading(head, stream[m + 1..])
        case Exhausted =>
        case Generated(p, rest) =>
          var i :| FirstNonZero(stream, m + 1, i) && p == head + [stream[i]] && rest == stream[i + 1..];
          assert FirstNonZero(stream, m, i);
      } else {
        assert FirstNonZero(stream, m, m);
      }
    }
  }

  // Reading as the program means to: x, the first m bytes, then the first byte that is not zero, which is at place i,
  // are the coefficients, and what follows is left.
  ghost predicate ReadsUpTo(p: seq<byte>, rest: seq<byte>, x: byte, stream: seq<byte>, m: nat, i: int) {
    && FirstNonZero(stream, m, i) && rest == stream[i + 1..]
    && |p| == m + 2 && p[0] == x && p[1..m + 1] == stream[..m] && p[m + 1] == stream[i]
  }

  lemma ReadsOneWay(p: seq<byte>, rest: seq<byte>, x: byte, stream: seq<byte>, m: nat, i: int)
    requires FirstNonZero(stream, m, i)
    ensures (exists j :: ReadsUpTo(p, rest, x, stream, m, j))
            <==> p == [x] + stream[..m] + [stream[i]] && rest == stream[i + 1..]
  {
    PolynomialParts(p, x, stream[..m], stream[i]);
    assert forall j | FirstNonZero(stream, m, j) :: j == i;
    if p == [x] + stream[..m] + [stream[i]] && rest == stream[i + 1..] {
      assert ReadsUpTo(p, rest, x, stream, m, i);
    }
  }

  // Which bytes make the polynomial and which are consumed; and when the stream is too short.
  lemma GenerationReads(degree: nat, x: byte, stream: seq<byte>, p: seq<byte>, rest: seq<byte>, m: nat)
    requires degree >= 1 && m == degree - 1
    ensures Generation(degree, x, stream) == Generated(p, rest) <==> exists i :: ReadsUpTo(p, rest, x, stream, m, i)
    ensures Generation(degree, x, stream) == Exhausted
            <==> |stream| < m || forall j | m <= j < |stream| :: stream[j] == 0
  {
    if |stream| >= m {
      var head := [x] + stream[..m];
      LeadingIsFirstNonZero(head, stream, m);
      hide Leading;
      match Leading(head, stream[m..])
      case Exhausted =>
        assert forall i :: !FirstNonZero(stream, m, i);
      case Generated(p', rest') =>
        var i :| FirstNonZero(stream, m, i) && p' == head + [stream[i]] && rest' == stream[i + 1..];
        hide ReadsUpTo;
        ReadsOneWay(p, rest, x, stream, m, i);
    }
  }

  // At degree 0 the byte degree - 1 is 255: so many bytes are dropped, and then so is the constant term.
  lemma GenerationOfDegreeZero(x: byte, stream: seq<byte>)
    ensures match Generation(0, x, stream)
            case Generated(p, rest) =>
              exists i :: FirstNonZero(stream, 255, i) && p == [stream[i]] && rest == stream[i + 1..]
            case Exhausted => |stream| < 255 || forall j | 255 <= j < |stream| :: stream[j] == 0
  {
    if |stream| >= 255 {
      LeadingIsFirstNonZero([], stream, 255);
      hide Leading;
      match Leading([], stream[255..])
      case Exhausted =>
      case Generated(p, rest) =>
        var i :| FirstNonZero(stream, 255, i) && p == [] + [stream[i]] && rest == stream[i + 1..];
    }
  }

  lemma PolynomialParts(p: seq<byte>, x: byte, middle: seq<byte>, top: byte)
    ensures p == [x] + middle + [top]
            <==> |p| == |middle| + 2 && p[0] == x && p[1..|middle| + 1] == middle && p[|middle| + 1] == top
  {
    if |p| == |middle| + 2 {
      assert p == [p[0]] + p[1..|middle| + 1] + [p[|middle| + 1]];
    }
  }

  // Generate returns exactly the polynomials with the given constant term and a non-zero leading coefficient.
  lemma GenerateReaches(degree: nat, x: byte, p: seq<byte>)
    requires degree >= 1
    ensures (exists stream: seq<byte>, rest: seq<byte> :: Generation(degree, x, stream) == Generated(p, rest))
            <==> |p| == degree + 1 && p[0] == x && p[degree] != 0
  {
    hide Generation;
    if stream: seq<byte>, rest: seq<byte> :| Generation(degree, x, stream) == Generated(p, rest) {
      GenerateShape(degree, x, stream);
    }
    if |p| == degree + 1 && p[0] == x && p[degree] != 0 {
      GenerateFrom(degree, p, []);
    }
  }

  lemma {:induction false} LeadingShape(head: seq<byte>, stream: seq<byte>)
    ensures match Leading(head, stream)
            case Exhausted => true
            case Generated(p, _) => |p| == |head| + 1 && p[..|head|] == head && p[|head|] != 0
  {
    if stream != [] && stream[0] == 0 {
      LeadingShape(head, stream[1..]);
    }
  }

  lemma GenerateShape(degree: nat, x: byte, stream: seq<byte>)
    requires degree >= 1
    ensures match Generation(degree, x, stream)
            case Exhausted => true
            case Generated(p, _) => |p| == degree + 1 && p[0] == x && p[degree] != 0
  {
    var m := MiddleCount(degree);
    if |stream| >= m {
      var head := Head(degree, x, stream[..m]);
      LeadingShape(head, stream[m..]);
      assert head[0] == x;
      match Generation(degree, x, stream)
      case Exhausted =>
      case Generated(p, _) => assert p[..|head|][0] == p[0];
    }
  }

  ghost predicate IsSharing(k: nat, secret: seq<byte>, polys: seq<seq<byte>>)
    requires k >= 2
  {
    && |polys| == |secret|
    && forall i | 0 <= i < |polys| :: |polys[i]| == k && polys[i][0] == secret[i] && polys[i][k - 1] != 0
  }

  lemma SharingMore(k: nat, secret: seq<byte>, polys: seq<seq<byte>>, p: seq<byte>)
    requires k >= 2 && secret != [] && IsSharing(k, secret[..|secret| - 1], polys)
    requires |p| == k && p[0] == secret[|secret| - 1] && p[k - 1] != 0
    ensures IsSharing(k, secret, polys + [p])
  {
  }

  lemma {:induction false} PolynomialsShape(k: nat, secret: seq<byte>, stream: seq<byte>)
    requires k >= 2
    ensures match Polynomials(k - 1, secret, stream)
            case OutOfBytes => true
            case Drawn(polys, _) => IsSharing(k, secret, polys)
  {
    hide Generation;
    if secret != [] {
      var last := |secret| - 1;
      PolynomialsShape(k, secret[..last], stream);
      match Polynomials(k - 1, secret[..last], stream)
      case OutOfBytes =>
      case Drawn(polys, rest) =>
        GenerateShape(k - 1, secret[last], rest);
        hide IsSharing;
        match Generation(k - 1, secret[last], rest)
        case Exhausted =>
        case Generated(p, _) => SharingMore(k, secret, polys, p);
    }
  }

  lemma {:induction false} SomeListing(keys: set<uint8>) returns (s: seq<uint8>)
    ensures |s| == |keys| && Distinct(s) && forall j | 0 <= j < |s| :: s[j] in keys
    decreases keys
  {
    if keys == {} {
      s := [];
    } else {
      var k :| k in keys;
      s := SomeListing(keys - {k});
      s := s + [k];
    }
  }

  // Some of the shares that splitting handed out.
  ghost predicate IsSelection(some: Shares, shares: Shares) {
    forall h: uint8 | h in some :: h in shares && some[h] == shares[h]
  }

  lemma SelectionOnPolynomial(some: Shares, shares: Shares, n: uint8, polys: seq<seq<byte>>, keys: seq<uint8>, i: nat)
    requires IsShareMap(shares, n, polys) && IsSelection(some, shares) && Listing(some, keys) && i < |polys|
    ensures forall j | 0 <= j < |keys| :: keys[j] in some && i < |some[keys[j]]|
    ensures Through(GF, polys[i], PointsAt(some, keys, i))
    ensures OffZero(GF, PointsAt(some, keys, i))
    ensures DistinctX(PointsAt(some, keys, i))
  {
    hide AsByte, Value;
    FieldIsValid();
    forall j | 0 <= j < |keys|
      ensures keys[j] in some && some[keys[j]] == Share(polys, keys[j]) && AsByte(keys[j]) != 0
    {
      AsByteZero(keys[j]);
    }
    PointsDistinct(some, keys, i);
  }

  // Shares that splitting can hand out, for some random stream.
  ghost predicate IsSplit(n: uint8, k: nat, secret: seq<byte>, stream: seq<byte>, shares: Shares)
    requires k >= 2
  {
    match Polynomials(k - 1, secret, stream)
    case OutOfBytes => false
    case Drawn(polys, _) => IsShareMap(shares, n, polys)
  }

  lemma CombinationLength(n: uint8, polys: seq<seq<byte>>, shares: Shares, some: Shares, out: seq<byte>)
    requires IsShareMap(shares, n, polys) && IsSelection(some, shares) && IsCombination(some, out)
    requires some.Keys != {} || polys == []
    ensures |out| == |polys|
  {
    hide Interpolation, PointsAt;
    if some.Keys != {} {
      var h: uint8 :| h in some && |some[h]| == |out|;
      assert some[h] == Share(polys, h);
    }
  }

  // Any k or more of the shares give back exactly the secret.
  lemma CombineRecovers(n: uint8, k: nat, secret: seq<byte>, stream: seq<byte>, shares: Shares, some: Shares,
      out: seq<byte>)
    requires k >= 2 && IsSplit(n, k, secret, stream, shares)
    requires IsSelection(some, shares) && (|some| >= k || secret == [])
    requires IsCombination(some, out)
    ensures out == secret
  {
    hide Value, Interpolation, PointsAt, Polynomials;
    var polys := Polynomials(k - 1, secret, stream).polys;
    PolynomialsShape(k, secret, stream);
    var keys := SomeListing(some.Keys);
    CombinationLength(n, polys, shares, some, out);
    forall i | 0 <= i < |secret|
      ensures out[i] == secret[i]
    {
      SelectionOnPolynomial(some, shares, n, polys, keys, i);
      FieldIsValid();
      InterpolationAgrees(GF, polys[i], PointsAt(some, keys, i), 0);
      ValueAtZero(GF, polys[i]);
    }
  }

  // Exactly k - 1 of them give a string that differs from the secret in every byte.
  lemma CombineMisses(n: uint8, k: nat, secret: seq<byte>, stream: seq<byte>, shares: Shares, some: Shares,
      out: seq<byte>)
    requires k >= 2 && IsSplit(n, k, secret, stream, shares)
    requires IsSelection(some, shares) && |some| == k - 1
    requires IsCombination(some, out)
    ensures |out| == |secret| && forall i | 0 <= i < |secret| :: out[i] != secret[i]
  {
    hide Value, Interpolation, PointsAt, Polynomials;
    var polys := Polynomials(k - 1, secret, stream).polys;
    PolynomialsShape(k, secret, stream);
    var keys := SomeListing(some.Keys);
    CombinationLength(n, polys, shares, some, out);
    forall i | 0 <= i < |secret|
      ensures out[i] != secret[i]
    {
      SelectionOnPolynomial(some, shares, n, polys, keys, i);
      FieldIsValid();
      ExactDegreeMisses(GF, polys[i], secret[i], PointsAt(some, keys, i));
    }
  }

  // ---------- When too few shares give the secret after all ----------

  // For some random stream, combining the shares of exactly these holders returns the secret.
  ghost predicate CanRecover(n: uint8, k: nat, secret: seq<byte>, holders: set<uint8>)
    requires k >= 2
  {
    exists stream: seq<byte>, shares: Shares, some: Shares ::
      IsSplit(n, k, secret, stream, shares) && Recovers(shares, some, holders, secret)
  }

  ghost predicate Recovers(shares: Shares, some: Shares, holders: set<uint8>, secret: seq<byte>) {
    IsSelection(some, shares) && some.Keys == holders && IsCombination(some, secret)
  }

  // Points of the given holders that all hold the same byte.
  ghost function Level(keys: seq<uint8>, s: byte): (points: seq<Point<byte>>)
    ensures |points| == |keys|
  {
    seq(|keys|, j requires 0 <= j < |keys| => Point(AsByte(keys[j]), s))
  }

  ghost predicate AreHolders(keys: seq<uint8>) {
    Distinct(keys) && forall j | 0 <= j < |keys| :: keys[j] != 0
  }

  lemma LevelPoints(keys: seq<uint8>, s: byte)
    requires AreHolders(keys)
    ensures DistinctX(Level(keys, s)) && OffZero(GF, Level(keys, s))
  {
    hide AsByte;
    FieldIsValid();
    forall a, b | 0 <= a < b < |keys|
      ensures AsByte(keys[a]) != AsByte(keys[b])
    {
      AsByteInjective(keys[a], keys[b]);
    }
    forall a | 0 <= a < |keys|
      ensures AsByte(keys[a]) != 0
    {
      AsByteZero(keys[a]);
    }
  }

  // A polynomial that can be drawn and that hands its constant term to each of the first k - 2 holders.
  ghost function Careless(k: nat, keys: seq<uint8>, s: byte): (p: seq<byte>)
    requires k >= 2 && AreHolders(keys)
    ensures IsCandidate(GF, p, k, s, Level(if |keys| + 2 <= k then keys else [], s))
  {
    var points := Level(if |keys| + 2 <= k then keys else [], s);
    LevelPoints(if |keys| + 2 <= k then keys else [], s);
    FieldIsValid();
    FewPointsExcludeNothing(GF, k, s, points);
    var p: seq<byte> :| IsCandidate(GF, p, k, s, points);
    p
  }

  // The bytes from which the given polynomials are drawn one after the other.
  ghost function BytesOf(polys: seq<seq<byte>>): seq<byte>
    requires forall i | 0 <= i < |polys| :: polys[i] != []
  {
    if polys == [] then [] else BytesOf(polys[..|polys| - 1]) + polys[|polys| - 1][1..]
  }

  lemma OneMoreDrawn(degree: nat, secret: seq<byte>, stream: seq<byte>, polys: seq<seq<byte>>, rest: seq<byte>,
                     p: seq<byte>, tail: seq<byte>)
    requires secret != [] && Polynomials(degree, secret[..|secret| - 1], stream) == Drawn(polys, rest)
    requires Generation(degree, secret[|secret| - 1], rest) == Generated(p, tail)
    ensures Polynomials(degree, secret, stream) == Drawn(polys + [p], tail)
  {
    hide Generation;
  }

  lemma {:induction false} SplitFrom(k: nat, secret: seq<byte>, polys: seq<seq<byte>>, tail: seq<byte>)
    requires k >= 2 && IsSharing(k, secret, polys)
    ensures Polynomials(k - 1, secret, BytesOf(polys) + tail) == Drawn(polys, tail)
    decreases |secret|
  {
    hide Generation, Polynomials;
    if secret == [] {
      assert BytesOf(polys) + tail == tail;
      NoneDrawn(k - 1, tail);
    } else {
      var last := |secret| - 1;
      var p := polys[last];
      SplitFrom(k, secret[..last], polys[..last], p[1..] + tail);
      assert BytesOf(polys) + tail == BytesOf(polys[..last]) + (p[1..] + tail);
      GenerateFrom(k - 1, p, tail);
      OneMoreDrawn(k - 1, secret, BytesOf(polys) + tail, polys[..last], p[1..] + tail, p, tail);
      assert polys == polys[..last] + [p];
    }
  }

  lemma NoneDrawn(degree: nat, stream: seq<byte>)
    ensures Polynomials(degree, [], stream) == Drawn([], stream)
  {
  }

  // Interpolating through holders that all have the same byte, or through enough of them, gives the constant term.
  lemma CarelessInterpolates(k: nat, keys: seq<uint8>, s: byte, points: seq<Point<byte>>)
    requires k >= 2 && AreHolders(keys) && keys != [] && |keys| != k - 1
    requires |points| == |keys| && forall j | 0 <= j < |keys| ::
               points[j] == Point(AsByte(keys[j]), Value(GF, Careless(k, keys, s), AsByte(keys[j])))
    ensures Interpolation(GF, points, 0) == s
  {
    hide AsByte, Value, Interpolation;
    var p := Careless(k, keys, s);
    FieldIsValid();
    LevelPoints(keys, s);
    assert DistinctX(points) by {
      assert forall j | 0 <= j < |keys| :: points[j].x == Level(keys, s)[j].x;
    }
    if |keys| + 2 <= k {
      forall j | 0 <= j < |points|
        ensures Value(GF, [s], points[j].x) == points[j].y
      {
        assert Value(GF, p, Level(keys, s)[j].x) == s;
        ValueOfConstant(GF, s, points[j].x);
      }
      InterpolationAgrees(GF, [s], points, 0);
      ValueOfConstant(GF, s, 0);
    } else {
      InterpolationAgrees(GF, p, points, 0);
      ValueAtZero(GF, p);
    }
  }

  // What splitting and combining make of the careless polynomials.
  lemma CarelessRecovers(k: nat, secret: seq<byte>, keys: seq<uint8>, polys: seq<seq<byte>>, some: Shares)
    requires k >= 2 && AreHolders(keys) && keys != [] && |keys| != k - 1
    requires |polys| == |secret| && forall i | 0 <= i < |secret| :: polys[i] == Careless(k, keys, secret[i])
    requires Listing(some, keys) && forall h: uint8 | h in some :: some[h] == Share(polys, h)
    ensures IsCombination(some, secret)
  {
    hide AsByte, Value, Interpolation;
    assert |some[keys[0]]| == |secret|;
    forall others: seq<uint8>, i | Listing(some, others) && 0 <= i < |secret|
      ensures secret[i] == Interpolation(GF, PointsAt(some, others, i), 0)
    {
      CarelessInterpolates(k, keys, secret[i], PointsAt(some, keys, i));
      ListingOrderIndependent(some, keys, others, i);
    }
  }

  lemma CarelessSharing(k: nat, secret: seq<byte>, keys: seq<uint8>) returns (polys: seq<seq<byte>>)
    requires k >= 2 && AreHolders(keys)
    ensures IsSharing(k, secret, polys) && forall i | 0 <= i < |secret| :: polys[i] == Careless(k, keys, secret[i])
  {
    hide Value, AsByte;
    FieldIsValid();
    polys := seq(|secret|, i requires 0 <= i < |secret| => Careless(k, keys, secret[i]));
  }

  lemma HandOut(n: uint8, polys: seq<seq<byte>>, holders: set<uint8>) returns (shares: Shares, some: Shares)
    requires polys != [] && forall h: uint8 | h in holders :: 1 <= h <= n
    ensures IsShareMap(shares, n, polys) && IsSelection(some, shares) && some.Keys == holders
    ensures forall h: uint8 | h in some :: some[h] == Share(polys, h)
  {
    hide Value, Share;
    shares := map h: uint8 | 1 <= h <= n :: Share(polys, h);
    some := map h: uint8 | h in holders :: Share(polys, h);
  }

  // A number of holders other than k - 1 gets the secret from some random stream.
  lemma SomeStreamRecovers(n: uint8, k: nat, secret: seq<byte>, holders: set<uint8>)
    requires k >= 2 && secret != [] && holders != {} && |holders| != k - 1
    requires forall h: uint8 | h in holders :: 1 <= h <= n
    ensures CanRecover(n, k, secret, holders)
  {
    hide Value, IsCombination, IsSelection, Polynomials, BytesOf, IsShareMap, Careless;
    var keys := SomeListing(holders);
    var polys := CarelessSharing(k, secret, keys);
    SplitFrom(k, secret, polys, []);
    var shares, some := HandOut(n, polys, holders);
    assert |some| == |some.Keys|;
    CarelessRecovers(k, secret, keys, polys, some);
    assert IsSplit(n, k, secret, BytesOf(polys) + [], shares);
    assert Recovers(shares, some, holders, secret);
  }

  // Combining the shares of given holders returns a wrong secret for every random stream exactly when there are
  // k - 1 of them, or none; with fewer than k - 1, as with k or more, some stream gives the secret.
  lemma WrongForEveryStream(n: uint8, k: nat, secret: seq<byte>, holders: set<uint8>)
    requires k >= 2 && secret != []
    requires forall h: uint8 | h in holders :: 1 <= h <= n
    ensures !CanRecover(n, k, secret, holders) <==> holders == {} || |holders| == k - 1
  {
    hide IsSplit, Interpolation, PointsAt, IsSelection;
    if holders != {} && |holders| != k - 1 {
      SomeStreamRecovers(n, k, secret, holders);
    } else if stream: seq<byte>, shares: Shares, some: Shares :|
      IsSplit(n, k, secret, stream, shares) && Recovers(shares, some, holders, secret) {
      var b := secret[0];
      if holders != {} {
        CombineMisses(n, k, secret, stream, shares, some, secret);
      }
    }
  }

  // One share of three is the secret itself when the random bytes are 1 and 1, although all three are required.
  lemma OneShareOfThree(s: byte)
    ensures Polynomials(2, [s], [1, 1]) == Drawn([[s, 1, 1]], [])
    ensures Share([[s, 1, 1]], 1) == [s]
    ensures IsCombination(map[1 := [s]], [s])
  {
    hide Generation, Value, IsCombination, AsByte;
    OnesDrawn(s);
    assert [s][..0] == [];
    OnesCancel(s);
    OneShareCombines(s);
  }

  lemma OnesDrawn(s: byte)
    ensures Generation(2, s, [1, 1]) == Generated([s, 1, 1], [])
  {
    hide Generation;
    GenerateFrom(2, [s, 1, 1], []);
    assert [s, 1, 1][1..] + [] == [1, 1];
  }

  lemma OneShareCombines(s: byte)
    ensures IsCombination(map[1 := [s]], [s])
  {
    hide Value, AsByte, Interpolation;
    var some: Shares := map[1 := [s]];
    var secret := [s];
    assert 1 in some.Keys && |some[1]| == |secret|;
    forall keys: seq<uint8>, i | Listing(some, keys) && 0 <= i < |secret|
      ensures secret[i] == Interpolation(GF, PointsAt(some, keys, i), 0)
    {
      FieldIsValid();
      PointsDistinct(some, keys, i);
      ValueOfConstant(GF, s, AsByte(1));
      ValueOfConstant(GF, s, 0);
      InterpolationAgrees(GF, [s], PointsAt(some, keys, i), 0);
    }
    assert IsCombination(some, secret);
  }

  lemma OnesCancel(s: byte)
    ensures Value(GF, [s, 1, 1], AsByte(1)) == s
  {
    hide LogTable.LogTable.ToField;
    FieldIsValid();
    AsByteOf(1);
    assert AsByte(1) == 1;
    assert [s, 1, 1][1..] == [1, 1] && [1 as byte, 1][1..] == [1];
    ValueOfConstant(GF, 1, 1);
    assert GF.Laws(1, 1, 1) && GF.Laws(s, 0, 0);
    GF.MulZero(1);
  }

  // k - 1 points rule out a single byte: every other one is the constant term of exactly one polynomial that
  // Generate can return through those points.
  lemma PointsLeaveSecretOpen(points: seq<Point<byte>>, s: byte, p: seq<byte>)
    requires points != [] && DistinctX(points) && OffZero(GF, points)
    ensures (exists stream: seq<byte>, rest: seq<byte> :: Generation(|points|, s, stream) == Generated(p, rest))
              && Through(GF, p, points)
            <==> s != Interpolation(GF, points, 0) && p == Lagrange(GF, [Point(0, s)] + points)
  {
    hide Value, Interpolation, Generation, Lagrange;
    FieldIsValid();
    GenerateReaches(|points|, s, p);
    OnePointShort(GF, p, s, points);
  }
}
