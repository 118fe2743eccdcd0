/** GF(2^8) arithmetic with the polynomial x^8 + x^4 + x^3 + x^2 + 1 (0x11D).

    The field laws are derived from the generator loop that fills the log and exp tables:
    doubling is linear over XOR, its order is exactly 255, and so every non-zero byte is a
    unique power of the generator. */
module GF256 {
  import opened Bytes

  const POLYNOMIAL: bv16 := 0x11D

  // ---------- The generator and its powers ----------

  /** Multiplication by the generator x: shift, then reduce by the polynomial. */
  function Xtime(v: byte): byte {
    if v & 0x80 != 0 then (v << 1) ^ 0x1D else v << 1
  }

  /** `Xtime` applied `i` times. */
  function XPow(a: byte, i: nat): byte
    decreases i
  {
    if i == 0 then a else Xtime(XPow(a, i - 1))
  }

  /** The i-th power of the generator. */
  function Exp(i: nat): byte {
    XPow(1, i)
  }

  lemma ShiftTopBit(a: byte, b: byte)
    ensures (a ^ b) << 1 == (a << 1) ^ (b << 1)
    ensures (a ^ b) & 0x80 == (a & 0x80) ^ (b & 0x80)
    ensures a & 0x80 == 0 || a & 0x80 == 0x80
  {}

  lemma XtimeLinear(a: byte, b: byte)
    ensures Xtime(Add(a, b)) == Add(Xtime(a), Xtime(b))
  {
    ShiftTopBit(a, b);
    ShiftTopBit(b, a);
  }

  lemma XtimeInjective(a: byte, b: byte)
    ensures Xtime(a) == Xtime(b) ==> a == b
    ensures Xtime(a) == 0 <==> a == 0
  {}

  lemma {:induction false} XPowLinear(a: byte, b: byte, i: nat)
    ensures XPow(Add(a, b), i) == Add(XPow(a, i), XPow(b, i))
    decreases i
  {
    if i > 0 {
      XPowLinear(a, b, i - 1);
      XtimeLinear(XPow(a, i - 1), XPow(b, i - 1));
    }
  }

  lemma {:induction false} XPowAdd(a: byte, i: nat, j: nat)
    ensures XPow(a, i + j) == XPow(XPow(a, i), j)
    decreases j
  {
    if j > 0 { XPowAdd(a, i, j - 1); }
  }

  lemma {:induction false} XPowInjective(a: byte, b: byte, i: nat)
    ensures XPow(a, i) == XPow(b, i) ==> a == b
    ensures XPow(a, i) == 0 <==> a == 0
    decreases i
  {
    if i > 0 {
      XtimeInjective(XPow(a, i - 1), XPow(b, i - 1));
      XPowInjective(a, b, i - 1);
    }
  }

  // ---------- The order of the generator is exactly 255 ----------

  /** Squaring is linear in characteristic two: spread the bits apart and reduce. */
  function Square(v: byte): byte {
    (if v & 0x01 != 0 then 0x01 else 0) ^ (if v & 0x02 != 0 then 0x04 else 0) ^
    (if v & 0x04 != 0 then 0x10 else 0) ^ (if v & 0x08 != 0 then 0x40 else 0) ^
    (if v & 0x10 != 0 then 0x1D else 0) ^ (if v & 0x20 != 0 then 0x74 else 0) ^
    (if v & 0x40 != 0 then 0xCD else 0) ^ (if v & 0x80 != 0 then 0x13 else 0)
  }

  lemma SquareXtimeLow(v: byte)
    requires v & 0x80 == 0
    ensures Square(Xtime(v)) == Xtime(Xtime(Square(v)))
  {
    assert Xtime(v) == v << 1;
  }

  lemma SquareXtimeHigh(v: byte)
    requires v & 0x80 == 0x80
    ensures Square(Xtime(v)) == Xtime(Xtime(Square(v)))
  {
    assert Xtime(v) == (v << 1) ^ 0x1D;
  }

  lemma SquareXtime(v: byte)
    ensures Square(Xtime(v)) == Xtime(Xtime(Square(v)))
  {
    ShiftTopBit(v, 0);
    if v & 0x80 == 0 {
      SquareXtimeLow(v);
    } else {
      SquareXtimeHigh(v);
    }
  }

  lemma {:induction false} SquareExp(i: nat)
    ensures Square(Exp(i)) == Exp(2 * i)
  {
    if i > 0 {
      SquareExp(i - 1);
      SquareXtime(Exp(i - 1));
      assert Exp(2 * i) == Xtime(Exp(2 * i - 1)) == Xtime(Xtime(Exp(2 * i - 2)));
    }
  }

  /** One is reached after 255 steps, but not after 15, 51 or 85 (255 over its primes). */
  lemma PowersOfInterest()
    ensures Exp(15) == 0x26 && Exp(51) == 0x0A && Exp(85) == 0xD6 && Exp(255) == 1
  {
    assert Exp(1) == 2 && Exp(2) == 4 && Exp(3) == 8 by { assert Exp(0) == 1; }
    SquareExp(2); assert Exp(5) == 0x20;
    SquareExp(3); SquareExp(6); assert Exp(12) == 0xCD; assert Exp(13) == 0x87;
    assert Exp(15) == 0x26 by { assert Exp(14) == 0x13; }
    SquareExp(12); assert Exp(25) == 0x03;
    SquareExp(25); assert Exp(51) == 0x0A;
    SquareExp(5); SquareExp(10); assert Exp(21) == 0x75;
    SquareExp(21); SquareExp(42); assert Exp(85) == 0xD6;
    SquareExp(15); SquareExp(30); assert Exp(31) == 0xC0; assert Exp(60) == 0xB9;
    SquareExp(31); assert Exp(63) == 0xA1;
    SquareExp(63); assert Exp(127) == 0xCC;
    SquareExp(127); assert Exp(255) == 1;
  }

  lemma Period(i: nat)
    ensures Exp(i + 255) == Exp(i)
  {
    PowersOfInterest();
    XPowAdd(1, 255, i);
    assert 255 + i == i + 255;
  }

  lemma {:induction false} ExpModulo(i: nat)
    ensures Exp(i % 255) == Exp(i)
  {
    if i >= 255 {
      ExpModulo(i - 255);
      Period(i - 255);
    }
  }

  lemma {:induction false} PowerOfUnit(d: nat, m: nat)
    requires Exp(d) == 1
    ensures Exp(d * m) == 1
  {
    if m > 0 {
      PowerOfUnit(d, m - 1);
      XPowAdd(1, d, d * (m - 1));
      assert d * m == d + d * (m - 1);
    }
  }

  lemma ScaledMultiple(d: nat, m: nat, q: nat, t: nat, c: nat)
    requires d * m == q * t + 1
    ensures d * (m * c) == (q * c) * t + c
  {
    calc {
      d * (m * c);
      (d * m) * c;
      (q * t + 1) * c;
      (q * c) * t + c;
    }
  }

  lemma MultipleOfInverse(d: nat, q: nat, h: nat, r: nat, m: nat, e: nat)
    requires d == q * h + r && r * m == q * e + 1
    ensures d * m == q * (h * m + e) + 1
  {
    calc {
      d * m;
      { assert (q * h + r) * m == (q * h) * m + r * m; }
      (q * h) * m + r * m;
      { assert (q * h) * m == q * (h * m); }
      q * (h * m) + q * e + 1;
      q * (h * m + e) + 1;
    }
  }

  /** A step of order `q * c == 255` that misses a multiple of the prime `q` would make `Exp(c)` one. */
  lemma UnitStep(d: nat, m: nat, t: nat, q: nat, c: nat)
    requires Exp(d) == 1 && d * m == q * t + 1 && q * c == 255
    ensures Exp(c) == 1
  {
    PowerOfUnit(d, m * c);
    ScaledMultiple(d, m, q, t, c);
    Periods(t, c);
  }

  lemma {:induction false} Periods(t: nat, c: nat)
    ensures Exp(255 * t + c) == Exp(c)
  {
    if t > 0 {
      Periods(t - 1, c);
      Period(255 * (t - 1) + c);
    }
  }

  /** Every residue that a prime does not divide has an inverse modulo that prime. */
  lemma InverseModulo(r: nat, q: nat) returns (m: nat, e: nat)
    requires 0 < r < q && (q == 3 || q == 5 || q == 17)
    ensures r * m == q * e + 1
  {
    if q == 3 {
      m := [1, 2][r - 1];
    } else if q == 5 {
      m := [1, 3, 2, 4][r - 1];
    } else {
      m := [1, 9, 6, 13, 7, 3, 5, 15, 2, 12, 14, 10, 4, 11, 8, 16][r - 1];
    }
    e := (r * m) / q;
  }

  /** A unit step not divisible by the prime `q` would make `Exp(255 / q)` one. */
  lemma PrimeDividesOrder(d: nat, q: nat, h: nat, r: nat, c: nat)
    requires Exp(d) == 1 && d == q * h + r && 0 <= r < q
    requires q * c == 255 && Exp(c) != 1 && (q == 3 || q == 5 || q == 17)
    ensures r == 0
  {
    if r != 0 {
      var m, e := InverseModulo(r, q);
      MultipleOfInverse(d, q, h, r, m, e);
      UnitStep(d, m, h * m + e, q, c);
    }
  }

  /** No power of the generator strictly below 255 is one again. */
  lemma OrderIs255(d: nat)
    requires 0 < d < 255
    ensures Exp(d) != 1
  {
    PowersOfInterest();
    if Exp(d) == 1 {
      PrimeDividesOrder(d, 3, d / 3, d % 3, 85);
      PrimeDividesOrder(d, 5, d / 5, d % 5, 51);
      PrimeDividesOrder(d, 17, d / 17, d % 17, 15);
    }
  }

  lemma ExpInjective(i: nat, j: nat)
    requires i < 255 && j < 255 && Exp(i) == Exp(j)
    ensures i == j
  {
    if i < j {
      XPowAdd(1, j - i, i);
      XPowInjective(1, Exp(j - i), i);
      OrderIs255(j - i);
    } else if j < i {
      ExpInjective(j, i);
    }
  }

  // ---------- Every non-zero byte is a power of the generator ----------

  ghost function BytesBelow(n: nat): set<byte>
    requires n <= 256
  {
    if n == 0 then {} else BytesBelow(n - 1) + {(n - 1) as byte}
  }

  lemma {:induction false} InBytesBelow(b: byte, n: nat)
    requires b as int < n <= 256
    ensures b in BytesBelow(n)
  {
    if b as int != n - 1 {
      InBytesBelow(b, n - 1);
    }
  }

  lemma {:induction false} CardinalityBound(s: set<byte>, n: nat)
    requires n <= 256 && s <= BytesBelow(n)
    ensures |s| <= n
    decreases n
  {
    if n > 0 {
      CardinalityBound(s - {(n - 1) as byte}, n - 1);
    }
  }

  lemma {:induction false} PowersCardinality(n: nat)
    requires n <= 255
    ensures |set i | 0 <= i < n :: Exp(i)| == n
  {
    if n > 0 {
      PowersCardinality(n - 1);
      var before := set i | 0 <= i < n - 1 :: Exp(i);
      assert (set i | 0 <= i < n :: Exp(i)) == before + {Exp(n - 1)};
      if Exp(n - 1) in before {
        var i :| 0 <= i < n - 1 && Exp(i) == Exp(n - 1);
        ExpInjective(i, n - 1);
      }
    }
  }

  /** The pigeonhole step: 255 distinct non-zero powers leave no other non-zero byte. */
  lemma ExpSurjective(a: byte)
    requires a != 0
    ensures exists i :: 0 <= i < 255 && Exp(i) == a
  {
    var powers := set i | 0 <= i < 255 :: Exp(i);
    PowersCardinality(255);
    if a !in powers {
      forall i | 0 <= i < 255 ensures Exp(i) != 0 { XPowInjective(1, 1, i); }
      var s := powers + {a} + {0};
      assert |s| == 257;
      forall b | b in s ensures b in BytesBelow(256) { InBytesBelow(b, 256); }
      CardinalityBound(s, 256);
    }
  }

  /** Discrete logarithm to the base of the generator. */
  function Log(a: byte): (i: nat)
    requires a != 0
    ensures i < 255 && Exp(i) == a
  {
    ExpSurjective(a);
    assert forall i, j :: 0 <= i < 255 && 0 <= j < 255 && Exp(i) == a && Exp(j) == a ==> i == j by {
      forall i, j | 0 <= i < 255 && 0 <= j < 255 && Exp(i) == a && Exp(j) == a ensures i == j {
        ExpInjective(i, j);
      }
    }
    var i :| 0 <= i < 255 && Exp(i) == a;
    i
  }

  lemma LogExp(i: nat)
    requires i < 255
    ensures Exp(i) != 0 && Log(Exp(i)) == i
  {
    XPowInjective(1, 1, i);
    ExpInjective(i, Log(Exp(i)));
  }

  // ---------- The field operations ----------

  /** Addition and subtraction are both XOR. */
  function Add(a: byte, b: byte): byte {
    a ^ b
  }

  /** Multiplication through the log and exp tables. */
  function Mul(a: byte, b: byte): byte {
    if a == 0 || b == 0 then 0 else Exp((Log(a) + Log(b)) % 255)
  }

  /** Multiplicative inverse; zero has none. */
  function Inv(a: byte): Option<byte> {
    if a == 0 then None else Some(Exp((255 - Log(a)) % 255))
  }

  lemma AddComm(a: byte, b: byte)
    ensures Add(a, b) == Add(b, a)
  {}

  lemma AddAssoc(a: byte, b: byte, c: byte)
    ensures Add(Add(a, b), c) == Add(a, Add(b, c))
  {}

  lemma AddZero(a: byte)
    ensures Add(a, 0) == a && Add(0, a) == a
  {}

  lemma AddSelf(a: byte)
    ensures Add(a, a) == 0
  {}

  lemma AddCancel(a: byte, b: byte)
    ensures Add(Add(a, b), b) == a
    ensures Add(a, b) == 0 <==> a == b
  {}

  lemma AddInterchange(a: byte, b: byte, c: byte, d: byte)
    ensures Add(Add(a, b), Add(c, d)) == Add(Add(a, c), Add(b, d))
  {
    AddAssoc(a, b, Add(c, d));
    AddAssoc(b, c, d);
    AddComm(b, c);
    AddAssoc(c, b, d);
    AddAssoc(a, c, Add(b, d));
  }

  lemma MulComm(a: byte, b: byte)
    ensures Mul(a, b) == Mul(b, a)
  {}

  lemma MulZero(a: byte)
    ensures Mul(a, 0) == 0 && Mul(0, a) == 0
  {}

  lemma MulOne(a: byte)
    ensures Mul(a, 1) == a && Mul(1, a) == a
  {
    LogExp(0);
    assert Exp(0) == 1;
  }

  lemma LogMul(a: byte, b: byte)
    requires a != 0 && b != 0
    ensures Mul(a, b) != 0 && Log(Mul(a, b)) == (Log(a) + Log(b)) % 255
  {
    LogExp((Log(a) + Log(b)) % 255);
  }

  lemma MulOfLogs(a: byte, b: byte)
    requires a != 0 && b != 0
    ensures Mul(a, b) == Exp((Log(a) + Log(b)) % 255)
  {}

  lemma MulNonZero(a: byte, b: byte)
    ensures Mul(a, b) == 0 <==> a == 0 || b == 0
  {
    if a != 0 && b != 0 { LogMul(a, b); }
  }

  lemma SumModulo(x: nat, y: nat, z: nat)
    ensures ((x + y) % 255 + z) % 255 == (x + (y + z) % 255) % 255
  {}

  lemma MulAssoc(a: byte, b: byte, c: byte)
    ensures Mul(Mul(a, b), c) == Mul(a, Mul(b, c))
  {
    if a != 0 && b != 0 && c != 0 {
      LogMul(a, b);
      LogMul(b, c);
      MulOfLogs(Mul(a, b), c);
      MulOfLogs(a, Mul(b, c));
      SumModulo(Log(a), Log(b), Log(c));
    }
  }

  lemma XPowZero(i: nat)
    ensures XPow(0, i) == 0
  {
    XPowInjective(0, 0, i);
  }

  /** The tables compute `a` doubled `Log(b)` times. */
  lemma MulIsIteratedXtime(a: byte, b: byte)
    requires b != 0
    ensures Mul(a, b) == XPow(a, Log(b))
  {
    if a == 0 {
      XPowZero(Log(b));
    } else {
      XPowAdd(1, Log(a), Log(b));
      ExpModulo(Log(a) + Log(b));
    }
  }

  lemma MulDistributes(a: byte, b: byte, c: byte)
    ensures Mul(Add(a, b), c) == Add(Mul(a, c), Mul(b, c))
    ensures Mul(c, Add(a, b)) == Add(Mul(c, a), Mul(c, b))
  {
    if c != 0 {
      MulIsIteratedXtime(Add(a, b), c);
      MulIsIteratedXtime(a, c);
      MulIsIteratedXtime(b, c);
      XPowLinear(a, b, Log(c));
    }
    MulComm(Add(a, b), c);
    MulComm(a, c);
    MulComm(b, c);
  }

  lemma InvCorrect(a: byte)
    ensures Inv(a) == None <==> a == 0
    ensures a != 0 ==> Mul(a, Inv(a).value) == 1
  {
    if a != 0 {
      LogExp((255 - Log(a)) % 255);
      assert (Log(a) + (255 - Log(a)) % 255) % 255 == 0;
      assert Exp(0) == 1;
    }
  }

  // ---------- The reference: carry-less multiplication modulo 0x11D ----------

  predicate Bit(b: byte, i: nat)
    requires i < 8
  {
    b & (1 << i) != 0
  }

  /** The sum of `a * x^i` over the set bits `i < n` of `b`, each reduced by the polynomial. */
  function PolyMul(a: byte, b: byte, n: nat): byte
    requires n <= 8
    decreases n
  {
    if n == 0 then 0
    else Add(PolyMul(a, b, n - 1), if Bit(b, n - 1) then XPow(a, n - 1) else 0)
  }

  lemma BitsOfNibble(b: byte)
    ensures PolyMul(1, b, 4) == b & 0x0F
  {
    assert Exp(0) == 1 && Exp(1) == 2 && Exp(2) == 4 && Exp(3) == 8;
    assert PolyMul(1, b, 1) == b & 0x01;
    assert PolyMul(1, b, 2) == b & 0x03;
    assert PolyMul(1, b, 3) == b & 0x07;
  }

  lemma BitsOfByte(b: byte)
    ensures PolyMul(1, b, 8) == b
  {
    BitsOfNibble(b);
    assert Exp(4) == 16 && Exp(5) == 32 && Exp(6) == 64 && Exp(7) == 128 by { assert Exp(2) == 4; }
    assert PolyMul(1, b, 5) == b & 0x1F;
    assert PolyMul(1, b, 6) == b & 0x3F;
    assert PolyMul(1, b, 7) == b & 0x7F;
  }

  lemma {:induction false} PolyMulDistributes(a: byte, b: byte, n: nat)
    requires n <= 8
    ensures PolyMul(a, b, n) == Mul(a, PolyMul(1, b, n))
    decreases n
  {
    if n > 0 {
      PolyMulDistributes(a, b, n - 1);
      var term := if Bit(b, n - 1) then Exp(n - 1) else 0;
      MulDistributes(PolyMul(1, b, n - 1), term, a);
      if Bit(b, n - 1) {
        LogExp(n - 1);
        MulIsIteratedXtime(a, Exp(n - 1));
      }
    }
  }

  /** The table-driven product is the polynomial product reduced modulo 0x11D. */
  lemma MulIsPolynomialProduct(a: byte, b: byte)
    ensures Mul(a, b) == PolyMul(a, b, 8)
  {
    PolyMulDistributes(a, b, 8);
    BitsOfByte(b);
  }

  // ---------- The table-building loops ----------

  lemma WideStep(v: byte)
    ensures var w := (v as bv16) << 1;
            (if w & 0x100 != 0 then w ^ POLYNOMIAL else w) == Xtime(v) as bv16
  {}

  /** `log` holds the discrete logarithms of the first `n` powers of the generator. */
  ghost predicate LogsUpTo(log: seq<byte>, n: nat)
    requires n <= 255
  {
    |log| == 256 && log[0] == 0 && forall j :: 0 <= j < n ==> log[Exp(j) as int] == j as byte
  }

  lemma LogsStep(log: seq<byte>, n: nat)
    requires n < 255 && LogsUpTo(log, n)
    ensures LogsUpTo(log[Exp(n) as int := n as byte], n + 1)
  {
    LogExp(n);
    forall j | 0 <= j < n ensures Exp(j) as int != Exp(n) as int {
      LogExp(j);
    }
  }

  lemma LogsComplete(log: seq<byte>)
    requires LogsUpTo(log, 255)
    ensures forall a: byte :: a != 0 ==> log[a as int] == Log(a) as byte
  {
    forall a: byte | a != 0 ensures log[a as int] == Log(a) as byte {
      assert Exp(Log(a)) == a;
    }
  }

  /** Fills the log and exp tables by walking the powers of the generator. */
  method BuildTables() returns (log: array<byte>, exp: array<byte>)
    ensures log.Length == 256 && exp.Length == 256
    ensures forall i :: 0 <= i < 255 ==> exp[i] == Exp(i)
    ensures exp[255] == exp[0]
    ensures forall a: byte :: a != 0 ==> log[a as int] == Log(a) as byte
    ensures log[0] == 0
  {
    log := new byte[256](_ => 0);
    exp := new byte[256](_ => 0);
    var val: bv16 := 1;
    for i := 0 to 255
      invariant val == Exp(i) as bv16
      invariant forall j :: 0 <= j < i ==> exp[j] == Exp(j)
      invariant LogsUpTo(log[..], i)
    {
      LogsStep(log[..], i);
      WideStep(Exp(i));
      exp[i] := val as byte;
      log[val as int] := i as byte;
      val := val << 1;
      if val & 0x100 != 0 {
        val := val ^ POLYNOMIAL;
      }
    }
    exp[255] := exp[0];
    LogsComplete(log[..]);
  }

  ghost predicate IsMulTable(table: seq<byte>, a: byte) {
    |table| == 256 && forall x: byte :: table[x as int] == Mul(a, x)
  }

  /** The 256-entry table of multiples of `a`. */
  method MulTable(a: byte) returns (r: seq<byte>)
    ensures IsMulTable(r, a)
  {
    var table := new byte[256](_ => 0);
    if a == 0 {
      return table[..];
    }
    var logA := Log(a);
    for x := 1 to 256
      invariant table[0] == 0
      invariant forall y: byte :: y as int < x ==> table[y as int] == Mul(a, y)
    {
      var logSum := (logA + Log(x as byte)) % 255;
      table[x] := Exp(logSum);
    }
    return table[..];
  }

  /** A table read: the fast form of one multiplication. */
  function Lookup(table: seq<byte>, x: byte, ghost a: byte): (r: byte)
    requires IsMulTable(table, a)
    ensures r == Mul(a, x)
  {
    table[x as int]
  }
}
