/** The 160-bit identifiers: xor, comparison and prefix length on byte arrays, and the metric they induce. */
module Ids {
  import opened Bytes

  const ID_BYTES := 20
  const ID_BITS := 160

  type Id = s: seq<byte> | |s| == ID_BYTES witness seq(ID_BYTES, _ => 0)

  // ---------- The numbers that byte strings stand for ----------

  ghost function Power2(n: nat): nat {
    if n == 0 then 1 else 2 * Power2(n - 1)
  }

  // The number that a byte stands for.
  function ByteValue(b: byte): (n: nat)
    ensures n <= 255
  {
    b as int
  }

  // Big-endian.
  ghost function Num(s: seq<byte>): nat {
    if s == [] then 0 else ByteValue(s[0]) * Power2(8 * (|s| - 1)) + Num(s[1..])
  }

  lemma {:induction false} Power2Add(n: nat, m: nat)
    ensures Power2(n + m) == Power2(n) * Power2(m)
    decreases n
  {
    if n > 0 {
      Power2Add(n - 1, m);
      DoubleProduct(Power2(n - 1), Power2(m));
    }
  }

  lemma DoubleProduct(a: int, b: int)
    ensures 2 * (a * b) == (2 * a) * b
  {
  }

  lemma Power2Byte(n: nat)
    ensures Power2(8 * (n + 1)) == 256 * Power2(8 * n)
  {
    Power2Add(8, 8 * n);
    assert Power2(8) == 256;
  }

  lemma {:induction false} Power2Monotone(n: nat, m: nat)
    requires n <= m
    ensures 1 <= Power2(n) <= Power2(m)
    decreases m
  {
    if n < m {
      Power2Monotone(n, m - 1);
    } else if n > 0 {
      Power2Monotone(n - 1, n - 1);
    }
  }

  lemma HeadDecides(a: int, b: int, p: nat, r: nat, q: nat)
    requires a < b && r < p
    ensures a * p + r < b * p + q
  {
    assert (a + 1) * p <= b * p;
  }

  lemma {:induction false} NumBound(s: seq<byte>)
    ensures Num(s) < Power2(8 * |s|)
  {
    hide ByteValue;
    if s != [] {
      NumBound(s[1..]);
      Power2Byte(|s| - 1);
      HeadDecides(ByteValue(s[0]), 256, Power2(8 * (|s| - 1)), Num(s[1..]), 0);
    }
  }

  // ---------- Comparison ----------

  // -1, 0 or 1 as the number of s is below, at or above that of t.
  ghost function Sign(s: seq<byte>, t: seq<byte>): int {
    if Num(s) < Num(t) then -1 else if Num(s) == Num(t) then 0 else 1
  }

  lemma SmallerHead(s: seq<byte>, t: seq<byte>)
    requires |s| == |t| > 0 && ByteValue(s[0]) < ByteValue(t[0])
    ensures Num(s) < Num(t)
  {
    hide ByteValue;
    NumBound(s[1..]);
    HeadDecides(ByteValue(s[0]), ByteValue(t[0]), Power2(8 * (|s| - 1)), Num(s[1..]), Num(t[1..]));
  }

  lemma {:induction false} FirstDifference(s: seq<byte>, t: seq<byte>, i: nat)
    requires |s| == |t| && i < |s| && s[..i] == t[..i] && ByteValue(s[i]) < ByteValue(t[i])
    ensures Num(s) < Num(t)
    decreases i
  {
    hide ByteValue;
    if i == 0 {
      SmallerHead(s, t);
    } else {
      assert s[0] == s[..i][0] == t[..i][0] == t[0];
      assert s[1..][..i - 1] == s[..i][1..] == t[..i][1..] == t[1..][..i - 1];
      FirstDifference(s[1..], t[1..], i - 1);
    }
  }

  method Compare(id: Id, other: Id) returns (c: int)
    ensures c == Sign(id, other)
    ensures c == 0 <==> id == other
  {
    hide ByteValue;
    for i := 0 to ID_BYTES
      invariant id[..i] == other[..i]
    {
      var difference := ByteValue(id[i]) - ByteValue(other[i]);
      if difference < 0 {
        FirstDifference(id, other, i);
        return -1;
      } else if difference > 0 {
        FirstDifference(other, id, i);
        return 1;
      }
      SameValue(id[i], other[i]);
    }
    assert id == id[..ID_BYTES] == other[..ID_BYTES] == other;
    return 0;
  }

  lemma SameValue(a: byte, b: byte)
    requires ByteValue(a) == ByteValue(b)
    ensures a == b
  {
  }

  // Different strings of one length are different numbers.
  lemma {:induction false} NumInjective(s: seq<byte>, t: seq<byte>)
    requires |s| == |t| && Num(s) == Num(t)
    ensures s == t
  {
    hide ByteValue;
    if s != [] {
      if ByteValue(s[0]) < ByteValue(t[0]) {
        FirstDifference(s, t, 0);
      } else if ByteValue(t[0]) < ByteValue(s[0]) {
        FirstDifference(t, s, 0);
      } else {
        SameValue(s[0], t[0]);
        NumInjective(s[1..], t[1..]);
        assert s == [s[0]] + s[1..] && t == [t[0]] + t[1..];
      }
    }
  }

  // ---------- Xor ----------

  function ByteXor(a: byte, b: byte): byte {
    a ^ b
  }

  ghost function XorOf(s: seq<byte>, t: seq<byte>): (x: seq<byte>)
    requires |s| == |t|
    ensures |x| == |s|
  {
    seq(|s|, i requires 0 <= i < |s| => ByteXor(s[i], t[i]))
  }

  method Xor(id: Id, other: Id) returns (ret: Id)
    ensures ret == XorOf(id, other)
  {
    hide ByteXor;
    var bytes := new byte[ID_BYTES];
    for i := 0 to ID_BYTES
      invariant bytes[..i] == XorOf(id, other)[..i]
    {
      bytes[i] := ByteXor(id[i], other[i]);
    }
    assert bytes[..] == bytes[..ID_BYTES] == XorOf(id, other)[..ID_BYTES] == XorOf(id, other);
    ret := bytes[..];
  }

  lemma XorSymmetric(s: seq<byte>, t: seq<byte>)
    requires |s| == |t|
    ensures XorOf(s, t) == XorOf(t, s)
  {
    hide ByteXor;
    forall i | 0 <= i < |s|
      ensures XorOf(s, t)[i] == XorOf(t, s)[i]
    {
      ByteCommutes(s[i], t[i]);
    }
  }

  // Xor by a key is its own inverse.
  lemma XorInvolution(key: seq<byte>, s: seq<byte>)
    requires |key| == |s|
    ensures XorOf(key, XorOf(key, s)) == s
  {
    hide ByteXor;
    forall i | 0 <= i < |s|
      ensures XorOf(key, XorOf(key, s))[i] == s[i]
    {
      ByteInvolution(key[i], s[i]);
    }
  }

  lemma ByteCommutes(a: byte, b: byte)
    ensures ByteXor(a, b) == ByteXor(b, a)
  {
  }

  lemma ByteInvolution(k: byte, a: byte)
    ensures ByteXor(k, ByteXor(k, a)) == a
  {
  }

  lemma ByteChain(a: byte, b: byte, c: byte)
    ensures ByteXor(a, c) == ByteXor(ByteXor(a, b), ByteXor(b, c))
  {
  }

  lemma XorChain(s: seq<byte>, t: seq<byte>, u: seq<byte>)
    requires |s| == |t| == |u|
    ensures XorOf(s, u) == XorOf(XorOf(s, t), XorOf(t, u))
  {
    hide ByteXor;
    forall i | 0 <= i < |s|
      ensures XorOf(s, u)[i] == XorOf(XorOf(s, t), XorOf(t, u))[i]
    {
      ByteChain(s[i], t[i], u[i]);
    }
  }

  // In nine bits the sum of two bytes cannot wrap.
  lemma WideSum(a: byte, b: byte)
    ensures (a as bv9 + b as bv9) as int == ByteValue(a) + ByteValue(b)
  {
  }

  lemma WideXorBelowSum(a: byte, b: byte)
    ensures ByteXor(a, b) as bv9 <= a as bv9 + b as bv9
  {
  }

  lemma WideOrder(a: bv9, b: bv9)
    requires a <= b
    ensures a as int <= b as int
  {
  }

  lemma WideValue(a: byte)
    ensures a as bv9 as int == ByteValue(a)
  {
  }

  lemma ByteXorBelowSum(a: byte, b: byte)
    ensures ByteValue(ByteXor(a, b)) <= ByteValue(a) + ByteValue(b)
  {
    hide ByteXor, ByteValue;
    WideXorBelowSum(a, b);
    WideOrder(ByteXor(a, b) as bv9, a as bv9 + b as bv9);
    WideValue(ByteXor(a, b));
    WideSum(a, b);
  }

  lemma {:induction false} NumOfXor(s: seq<byte>, t: seq<byte>)
    requires |s| == |t|
    ensures Num(XorOf(s, t)) <= Num(s) + Num(t)
  {
    hide ByteValue, ByteXor;
    if s != [] {
      var p := Power2(8 * (|s| - 1));
      var x := XorOf(s, t);
      assert x[1..] == XorOf(s[1..], t[1..]);
      NumOfXor(s[1..], t[1..]);
      ByteXorBelowSum(s[0], t[0]);
      HeadsAdd(ByteValue(x[0]), ByteValue(s[0]), ByteValue(t[0]), p);
    }
  }

  lemma HeadsAdd(x: int, a: int, b: int, p: nat)
    requires x <= a + b
    ensures x * p <= a * p + b * p
  {
    assert x * p <= (a + b) * p;
  }

  // ---------- The metric ----------

  ghost function Distance(a: Id, b: Id): nat {
    Num(XorOf(a, b))
  }

  lemma DistanceSymmetric(a: Id, b: Id)
    ensures Distance(a, b) == Distance(b, a)
  {
    XorSymmetric(a, b);
  }

  lemma DistanceTriangle(a: Id, b: Id, c: Id)
    ensures Distance(a, c) <= Distance(a, b) + Distance(b, c)
  {
    XorChain(a, b, c);
    NumOfXor(XorOf(a, b), XorOf(b, c));
  }

  // For a given key, each distance is the distance of exactly one identifier.
  lemma DistanceInjective(key: Id, a: Id, b: Id)
    ensures Distance(key, a) == Distance(key, b) ==> a == b
  {
    if Distance(key, a) == Distance(key, b) {
      NumInjective(XorOf(key, a), XorOf(key, b));
      XorInvolution(key, a);
      XorInvolution(key, b);
    }
  }

  lemma DistanceSurjective(key: Id, d: Id)
    ensures Distance(key, XorOf(key, d)) == Num(d)
  {
    XorInvolution(key, d);
  }

  lemma {:induction false} NumOfZeros(n: nat)
    ensures Num(seq(n, _ => 0)) == 0
  {
    if n > 0 {
      assert seq(n, _ => 0 as byte)[1..] == seq(n - 1, _ => 0 as byte);
      NumOfZeros(n - 1);
    }
  }

  lemma SelfXor(a: Id)
    ensures XorOf(a, a) == seq(ID_BYTES, _ => 0 as byte)
  {
  }

  lemma DistanceZero(a: Id, b: Id)
    ensures Distance(a, b) == 0 <==> a == b
  {
    NumOfZeros(ID_BYTES);
    SelfXor(a);
    DistanceInjective(a, a, b);
  }

  // ---------- Prefix length ----------

  // The position of the highest bit set; 0 when none is.
  function TopBit(b: byte): nat {
    if b & 0x80 != 0 then 7 else if b & 0x40 != 0 then 6 else if b & 0x20 != 0 then 5 else if b & 0x10 != 0 then 4
    else if b & 8 != 0 then 3 else if b & 4 != 0 then 2 else if b & 2 != 0 then 1 else 0
  }

  function ByteZeros(b: byte): (z: nat)
    ensures z <= 8
  {
    if b == 0 then 8 else 7 - TopBit(b)
  }

  ghost function LeadingZeros(s: seq<byte>): (n: nat)
    ensures n <= 8 * |s|
  {
    if s == [] then 0 else if ByteZeros(s[0]) == 8 then 8 + LeadingZeros(s[1..]) else ByteZeros(s[0])
  }

  // The zero identifier counts as having 159 leading zeros, not 160.
  ghost function PrefixLength(id: Id): (p: nat)
    ensures p < ID_BITS
  {
    if LeadingZeros(id) == ID_BITS then ID_BITS - 1 else LeadingZeros(id)
  }

  lemma BitAboveTop(b: byte, j: nat)
    requires j <= 7
    ensures j > TopBit(b) ==> (b >> j) & 1 == 0
    ensures b != 0 && j == TopBit(b) ==> (b >> j) & 1 != 0
  {
  }

  method PrefixLen(id: Id) returns (p: nat)
    ensures p == PrefixLength(id)
  {
    for i := 0 to ID_BYTES
      invariant LeadingZeros(id) == 8 * i + LeadingZeros(id[i..])
    {
      var j := 7;
      while j >= 0
        invariant -1 <= j <= 7
        invariant id[i] != 0 ==> TopBit(id[i]) <= j
      {
        BitAboveTop(id[i], j);
        if (id[i] >> j) & 1 != 0 {
          return 8 * i + (7 - j);
        }
        j := j - 1;
      }
      assert id[i..][1..] == id[i + 1..];
    }
    return ID_BYTES * 8 - 1;
  }

  lemma TopBitBounds(b: byte)
    requires b != 0
    ensures Power2(TopBit(b)) <= ByteValue(b) < Power2(TopBit(b) + 1)
  {
    assert Power2(1) == 2 && Power2(2) == 4 && Power2(3) == 8 && Power2(4) == 16;
    assert Power2(5) == 32 && Power2(6) == 64 && Power2(7) == 128 && Power2(8) == 256;
    TopBitValue(b);
  }

  lemma TopBitValue(b: byte)
    requires b != 0
    ensures match TopBit(b)
            case 0 => b == 1
            case 1 => 2 <= b < 4
            case 2 => 4 <= b < 8
            case 3 => 8 <= b < 16
            case 4 => 16 <= b < 32
            case 5 => 32 <= b < 64
            case 6 => 64 <= b < 128
            case _ => 128 <= b
  {
  }

  // The leading zeros locate the number between two powers of two.
  lemma {:induction false} LeadingZerosBounds(s: seq<byte>)
    requires LeadingZeros(s) < 8 * |s|
    ensures Power2(8 * |s| - 1 - LeadingZeros(s)) <= Num(s) < Power2(8 * |s| - LeadingZeros(s))
  {
    if s[0] == 0 {
      LeadingZerosBounds(s[1..]);
    } else {
      FirstByteBounds(s);
    }
  }

  lemma FirstByteBounds(s: seq<byte>)
    requires s != [] && s[0] != 0
    ensures Power2(TopBit(s[0]) + 8 * (|s| - 1)) <= Num(s) < Power2(TopBit(s[0]) + 1 + 8 * (|s| - 1))
  {
    hide TopBit, ByteValue, Power2;
    var t, n := TopBit(s[0]), |s| - 1;
    TopBitBounds(s[0]);
    NumBound(s[1..]);
    Power2Add(t, 8 * n);
    Power2Add(t + 1, 8 * n);
    BetweenPowers(Power2(t), ByteValue(s[0]), Power2(t + 1), Power2(8 * n), Num(s[1..]));
  }

  lemma BetweenPowers(low: nat, a: int, high: nat, p: nat, r: nat)
    requires low <= a < high && r < p
    ensures low * p <= a * p + r < high * p
  {
    assert low * p <= a * p;
    assert (a + 1) * p <= high * p;
  }

  lemma {:induction false} AllLeadingZeros(s: seq<byte>)
    ensures LeadingZeros(s) == 8 * |s| <==> Num(s) == 0
  {
    if s != [] {
      AllLeadingZeros(s[1..]);
      if s[0] != 0 {
        LeadingZerosBounds(s);
        Power2Monotone(0, 8 * |s| - 1 - LeadingZeros(s));
      }
    }
  }

  // A prefix length of p means a number between 2^(159-p) and 2^(160-p), except that zero has 159 too.
  lemma PrefixLengthBounds(id: Id)
    ensures Num(id) < Power2(ID_BITS - PrefixLength(id))
    ensures Num(id) != 0 ==> Power2(ID_BITS - 1 - PrefixLength(id)) <= Num(id)
    ensures Num(id) == 0 ==> PrefixLength(id) == ID_BITS - 1
  {
    AllLeadingZeros(id);
    if LeadingZeros(id) < ID_BITS {
      LeadingZerosBounds(id);
    } else {
      Power2Monotone(0, 1);
    }
  }

  lemma ByteZerosOfXor(a: byte, b: byte)
    ensures ByteZeros(a) < ByteZeros(b) ==> ByteZeros(ByteXor(a, b)) == ByteZeros(a)
    ensures ByteZeros(a) == ByteZeros(b) ==> ByteZeros(ByteXor(a, b)) == 8 || ByteZeros(ByteXor(a, b)) > ByteZeros(a)
  {
  }

  // Where two strings differ in leading zeros their xor has the fewer; where they agree it has more.
  lemma {:induction false} LeadingZerosOfXor(s: seq<byte>, t: seq<byte>)
    requires |s| == |t|
    ensures LeadingZeros(s) < LeadingZeros(t) ==> LeadingZeros(XorOf(s, t)) == LeadingZeros(s)
    ensures LeadingZeros(s) == LeadingZeros(t) ==> LeadingZeros(XorOf(s, t)) >= LeadingZeros(s)
    ensures LeadingZeros(s) == LeadingZeros(t) < 8 * |s| ==> LeadingZeros(XorOf(s, t)) > LeadingZeros(s)
  {
    hide ByteZeros, ByteXor;
    if s != [] {
      ByteZerosOfXor(s[0], t[0]);
      XorParts(s, t);
      LeadingZerosOfXor(s[1..], t[1..]);
    }
  }

  lemma XorParts(s: seq<byte>, t: seq<byte>)
    requires |s| == |t| > 0
    ensures XorOf(s, t)[0] == ByteXor(s[0], t[0]) && XorOf(s, t)[1..] == XorOf(s[1..], t[1..])
  {
  }

  lemma BelowByLeadingZeros(s: seq<byte>, n: nat)
    requires LeadingZeros(s) >= 8 * |s| - n
    ensures Num(s) < Power2(n)
  {
    AllLeadingZeros(s);
    if LeadingZeros(s) < 8 * |s| {
      LeadingZerosBounds(s);
      Power2Monotone(8 * |s| - LeadingZeros(s), n);
    } else {
      Power2Monotone(0, n);
    }
  }

  lemma AboveByLeadingZeros(s: seq<byte>, n: nat)
    requires LeadingZeros(s) < 8 * |s| - n
    ensures Power2(n) <= Num(s)
  {
    LeadingZerosBounds(s);
    Power2Monotone(n, 8 * |s| - 1 - LeadingZeros(s));
  }

  // Seen from self, an identifier with the target's own prefix length is closer to the target than any
  // identifier with another one.
  lemma OwnPrefixIsCloser(self: Id, target: Id, near: Id, far: Id)
    requires PrefixLength(XorOf(near, self)) == PrefixLength(XorOf(target, self))
    requires PrefixLength(XorOf(far, self)) != PrefixLength(XorOf(target, self))
    ensures Distance(target, near) < Distance(target, far)
  {
    var a, n, f := XorOf(target, self), XorOf(near, self), XorOf(far, self);
    XorThrough(target, near, self);
    XorThrough(target, far, self);
    LeadingZerosOfXor(a, n);
    LeadingZerosOfXor(n, a);
    XorSymmetric(a, n);
    LeadingZerosOfXor(a, f);
    LeadingZerosOfXor(f, a);
    XorSymmetric(a, f);
    var bound := if PrefixLength(a) < ID_BITS - 1 then ID_BITS - 1 - PrefixLength(a) else 1;
    BelowByLeadingZeros(XorOf(a, n), bound);
    AboveByLeadingZeros(XorOf(a, f), bound);
  }

  lemma XorThrough(a: Id, b: Id, self: Id)
    ensures XorOf(a, b) == XorOf(XorOf(a, self), XorOf(b, self))
  {
    XorChain(a, self, b);
    XorSymmetric(self, b);
  }

  // Below its own index the order of the buckets is not the order of the distances: a longer common prefix with
  // self than the target's is closer than a shorter one.
  lemma LongerPrefixIsCloser(self: Id, target: Id, near: Id, far: Id)
    requires PrefixLength(XorOf(far, self)) < PrefixLength(XorOf(target, self)) < PrefixLength(XorOf(near, self))
    ensures Distance(target, near) < Distance(target, far)
  {
    var a, n, f := XorOf(target, self), XorOf(near, self), XorOf(far, self);
    XorThrough(target, near, self);
    XorThrough(target, far, self);
    LeadingZerosOfXor(a, n);
    LeadingZerosOfXor(f, a);
    XorSymmetric(a, f);
    BelowByLeadingZeros(XorOf(a, n), ID_BITS - PrefixLength(a));
    AboveByLeadingZeros(XorOf(a, f), ID_BITS - PrefixLength(a));
  }

  // ---------- Identifiers at given distances ----------

  // 76 distances with the first bit set, told apart by one later byte.
  ghost function FarDistance(n: nat): (d: Id)
    requires n < 76
    ensures d[0] == 0x80 && d[1 + n % 19] == Mark(n / 19)
    ensures forall i | 1 <= i < ID_BYTES && i != 1 + n % 19 :: d[i] == 0
  {
    seq(ID_BYTES, i => if i == 0 then 0x80 else if i != 1 + n % 19 then 0 else Mark(n / 19))
  }

  function Mark(n: nat): (b: byte)
    ensures b != 0
  {
    if n == 0 then 1 else if n == 1 then 2 else if n == 2 then 3 else 4
  }

  ghost function Opposite(self: Id, n: nat): Id
    requires n < 76
  {
    XorOf(self, FarDistance(n))
  }

  lemma OppositeDiffers(self: Id, n: nat, m: nat)
    requires n < m < 76
    ensures Opposite(self, n) != Opposite(self, m)
  {
    XorInvolution(self, FarDistance(n));
    XorInvolution(self, FarDistance(m));
    var i := 1 + m % 19;
    assert n == 19 * (n / 19) + n % 19 && m == 19 * (m / 19) + m % 19;
    assert FarDistance(n)[i] != FarDistance(m)[i];
  }

  lemma OppositeIsFar(self: Id, n: nat)
    requires n < 76
    ensures Distance(self, Opposite(self, n)) >= 2
  {
    DistanceSurjective(self, FarDistance(n));
    PrefixLengthBounds(FarDistance(n));
    Power2Monotone(1, ID_BITS - 1);
    assert PrefixLength(FarDistance(n)) == 0;
    NumNonZero(FarDistance(n));
  }

  lemma NumNonZero(d: Id)
    requires d[0] != 0
    ensures Num(d) != 0
  {
    AllLeadingZeros(d);
  }

  // An identifier next to a given one.
  ghost function Neighbour(id: Id): Id {
    XorOf(id, seq(ID_BYTES - 1, _ => 0) + [1])
  }

  lemma NeighbourDistance(id: Id)
    ensures Distance(id, Neighbour(id)) == 1
  {
    DistanceSurjective(id, seq(ID_BYTES - 1, _ => 0) + [1]);
    NumOfOne(ID_BYTES - 1);
  }

  lemma {:induction false} NumOfOne(n: nat)
    ensures Num(seq(n, _ => 0) + [1]) == 1
  {
    var s: seq<byte> := seq(n, _ => 0) + [1];
    if n > 0 {
      assert s[1..] == seq(n - 1, _ => 0) + [1];
      NumOfOne(n - 1);
    } else {
      assert s[1..] == [];
    }
  }
}
