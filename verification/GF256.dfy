/**
 The field GF(2^8) of desktop/ff.py: bytes, exclusive-or as addition, multiplication
 through an exponent table and a logarithm table to the base 3. The field is the one of
 section 4.2 of FIPS 197.
 */
module GF256 {
  import opened GF256Tables

  // A GF256int is an integer between 0 and 255.
  datatype Elem = Elem(value: bv8)

  const ZERO := Elem(0)
  const ONE := Elem(1)
  // The generator of the multiplicative group.
  const ALPHA := Elem(3)

  // A table index as a byte, and a byte as an index, counted up from 0
  function Index(i: nat): bv8 {
    if i == 0 then 0 else Index(i - 1) + 1
  }

  function Value(a: bv8): nat {
    if a == 0 then 0 else Value(a - 1) + 1
  }

  // The discrete logarithm, an index below 255. The element 0 has none.
  function Log(a: Elem): nat
    requires a != ZERO
  {
    Value(LogTable(a.value))
  }

  // The exponent table at index i modulo 255; Python's % is never negative.
  function Exp(i: int): Elem {
    Elem(ExpTable(Index(i % 255)))
  }

  function Add(a: Elem, b: Elem): Elem {
    Elem(Xor(a.value, b.value))
  }

  function Neg(a: Elem): Elem {
    a
  }

  function Mul(a: Elem, b: Elem): Elem {
    if a == ZERO || b == ZERO then ZERO else Exp(Log(a) + Log(b))
  }

  // The base 0 has no logarithm; the source raises an error there.
  function Pow(a: Elem, power: int): Elem
    requires a != ZERO
  {
    Exp(Log(a) * power)
  }

  // The table is read at 255 - e without reduction, so its last entry is used for a == 1.
  function Inverse(a: Elem): Elem
    requires a != ZERO
  {
    LogBelow255(a);
    Elem(ExpTable(Index(255 - Log(a))))
  }

  function Div(a: Elem, b: Elem): Elem
    requires b != ZERO
  {
    Mul(a, Inverse(b))
  }

  // ----- addition

  lemma AddComm(a: Elem, b: Elem)
    ensures Add(a, b) == Add(b, a)
  {}

  lemma AddAssoc(a: Elem, b: Elem, c: Elem)
    ensures Add(Add(a, b), c) == Add(a, Add(b, c))
  {}

  lemma AddZero(a: Elem)
    ensures Add(a, ZERO) == a && Add(ZERO, a) == a
  {}

  lemma AddSelf(a: Elem)
    ensures Add(a, a) == ZERO
  {}

  lemma AddSwap(a: Elem, b: Elem, c: Elem, d: Elem)
    ensures Add(Add(a, b), Add(c, d)) == Add(Add(a, c), Add(b, d))
  {}

  // ----- exponents and logarithms

  lemma Minus(a: bv8)
    ensures (a - 1) + 1 == a && (a + 1) - 1 == a
    ensures a + 1 == 0 <==> a == 255
    ensures 255 - a == 0 <==> a == 255
    ensures 255 - (a - 1) == (255 - a) + 1
    ensures a != 0 ==> (255 - a) + 1 != 0
  {}

  // Counting up to a byte and on to 255
  lemma {:induction false} ValueRest(a: bv8)
    ensures Value(a) + Value(255 - a) == Value(255)
    decreases a
  {
    Minus(a);
    if a != 0 {
      ValueRest(a - 1);
      Minus(255 - a);
      assert Value(255 - (a - 1)) == Value(255 - a) + 1;
    }
  }

  lemma {:induction false} Halves(b: bv8)
    ensures Value(b) % 2 == (if b & 1 == 1 then 1 else 0)
    ensures Value(b >> 1) == Value(b) / 2
    decreases b
  {
    HalvesDown(b);
    if b > 1 {
      assert Value(b) == Value(b - 1) + 1 == Value(b - 2) + 2;
      Halves(b - 2);
    }
  }

  lemma HalvesDown(b: bv8)
    ensures b > 1 ==> b - 1 != 0 && b - 1 - 1 == b - 2 && b >> 1 != 0
    ensures b > 1 ==> (b - 2) >> 1 == (b >> 1) - 1 && (b - 2) & 1 == b & 1
    ensures b == 1 ==> b & 1 == 1 && b >> 1 == 0
    ensures b == 0 ==> b & 1 == 0 && b >> 1 == 0
  {}

  lemma Value255()
    ensures Value(255) == 255
  {
    hide Value;
    ValueOdd(255);
    ValueOdd(127);
    ValueOdd(63);
    ValueOdd(31);
    ValueOdd(15);
    ValueOdd(7);
    ValueOdd(3);
    ValueOdd(1);
    assert Value(0) == 0 by { ValueZero(); }
  }

  lemma ValueOdd(b: bv8)
    requires b & 1 == 1
    ensures Value(b) == 2 * Value(b >> 1) + 1
  {
    hide Value;
    Halves(b);
  }

  lemma ValueZero()
    ensures Value(0) == 0
  {}

  lemma {:induction false} ValueIndex(i: nat)
    requires i < 256
    ensures Value(Index(i)) == i
  {
    if i > 0 {
      ValueIndex(i - 1);
      Value255();
      Minus(Index(i - 1));
    }
  }

  lemma {:induction false} IndexValue(a: bv8)
    ensures Value(a) < 256 && Index(Value(a)) == a
    decreases a
  {
    ValueRest(a);
    Value255();
    Minus(a);
    if a != 0 {
      IndexValue(a - 1);
    }
  }

  lemma IndexNext(i: nat)
    requires i < 255
    ensures Index(i) != 255 && Index(i + 1) == Index(i) + 1
  {
    ValueIndex(i);
    Value255();
  }

  lemma LogBelow255(a: Elem)
    requires a != ZERO
    ensures Log(a) < 255
  {
    hide ExpTable, LogTable, Index, Value;
    Value255();
    IndexValue(255);
    ExpOfLogTable(a.value);
    IndexValue(LogTable(a.value));
  }

  lemma LogExp(i: int)
    ensures Exp(i) != ZERO && Log(Exp(i)) == i % 255
  {
    hide ExpTable, LogTable, Index, Value;
    var j := i % 255;
    IndexNext(j);
    LogOfExpTable(Index(j));
    ValueIndex(j);
  }

  lemma ExpLog(a: Elem)
    requires a != ZERO
    ensures Log(a) < 255 && Exp(Log(a)) == a
  {
    hide ExpTable, LogTable, Index, Value;
    LogBelow255(a);
    ExpOfLogTable(a.value);
    IndexValue(LogTable(a.value));
  }

  function Double(a: Elem): Elem {
    Elem(GF256Tables.Double(a.value))
  }

  function Triple(a: Elem): Elem {
    Add(a, Double(a))
  }

  // The entry after the one at j, reading the table as a cycle of length 255.
  lemma ExpTableCycle(j: nat)
    requires j < 255
    ensures ExpTable(Index(if j == 254 then 0 else j + 1)) == GF256Tables.Triple(ExpTable(Index(j)))
  {
    assert Index(0) == 0;
    hide ExpTable, GF256Tables.Triple, Index, Value;
    Value255();
    IndexValue(255);
    TableEnds();
    IndexNext(j);
    ExpTableStep(Index(j));
  }

  lemma ExpNext(i: int)
    ensures Exp(i + 1) == Triple(Exp(i))
  {
    hide ExpTable, GF256Tables.Double, Index;
    var j := i % 255;
    assert (i + 1) % 255 == if j == 254 then 0 else j + 1;
    ExpTableCycle(j);
  }

  // ----- the slow multiply

  // The sum of successive doublings of p selected by the bits of n: what the slow multiply adds up.
  function Peasant(p: Elem, n: nat): Elem
    decreases n
  {
    if n == 0 then ZERO else Add(if n % 2 == 1 then p else ZERO, Peasant(Double(p), n / 2))
  }

  lemma DoubleAdd(p: Elem, q: Elem)
    ensures Double(Add(p, q)) == Add(Double(p), Double(q))
  {
    hide GF256Tables.Double, Xor;
    DoubleXor(p.value, q.value);
  }

  lemma DoubleZero()
    ensures Double(ZERO) == ZERO
  {}

  lemma {:induction false} PeasantAdd(p: Elem, q: Elem, n: nat)
    ensures Peasant(Add(p, q), n) == Add(Peasant(p, n), Peasant(q, n))
    decreases n
  {
    hide Double, Add;
    if n == 0 {
      AddZero(ZERO);
    } else {
      PeasantAdd(Double(p), Double(q), n / 2);
      DoubleAdd(p, q);
      AddSwap(p, Peasant(Double(p), n / 2), q, Peasant(Double(q), n / 2));
      AddSwap(ZERO, Peasant(Double(p), n / 2), ZERO, Peasant(Double(q), n / 2));
      AddZero(ZERO);
    }
  }

  lemma {:induction false} PeasantDouble(p: Elem, n: nat)
    ensures Peasant(Double(p), n) == Double(Peasant(p, n))
    decreases n
  {
    hide Double, Add;
    DoubleZero();
    AddZero(Peasant(Double(p), n / 2));
    DoubleAdd(if n % 2 == 1 then p else ZERO, Peasant(Double(p), n / 2));
    if n != 0 {
      PeasantDouble(Double(p), n / 2);
    }
  }

  lemma {:induction false} PeasantOne(b: bv8)
    ensures Peasant(ONE, Value(b)) == Elem(b)
    decreases Value(b)
  {
    assert Elem(b) == Add(if b & 1 == 1 then ONE else ZERO, Double(Elem(b >> 1))) by { LowBit(b); }
    hide Double, Add, Value;
    Halves(b);
    IndexValue(b);
    if Value(b) != 0 {
      PeasantOne(b >> 1);
      PeasantDouble(ONE, Value(b) / 2);
    }
  }

  // ----- the table product is the slow product

  lemma ExpMod(i: int, j: int)
    requires i % 255 == j % 255
    ensures Exp(i) == Exp(j)
  {}

  lemma ExpOfSum(i: int, j: int)
    ensures Exp(i % 255 + j % 255) == Exp(i + j)
  {
    hide *;
    assert i + j == 255 * (i / 255 + j / 255) + (i % 255 + j % 255);
    ExpPeriod(i % 255 + j % 255, i / 255 + j / 255);
  }

  lemma ExpPeriod(i: int, n: int)
    ensures Exp(255 * n + i) == Exp(i)
  {
    assert (255 * n + i) % 255 == i % 255;
    hide ExpTable, Index;
  }

  // On powers of the generator the table product adds exponents.
  lemma MulExp(i: int, j: int)
    ensures Mul(Exp(i), Exp(j)) == Exp(i + j)
  {
    hide Exp, Log;
    LogExp(i);
    LogExp(j);
    ExpOfSum(i, j);
  }

  lemma MulZero(a: Elem)
    ensures Mul(a, ZERO) == ZERO && Mul(ZERO, a) == ZERO
  {}

  lemma TripleZero()
    ensures Triple(ZERO) == ZERO
  {
    DoubleZero();
    AddZero(ZERO);
  }

  lemma MulTriple(a: Elem, b: Elem)
    ensures Mul(Triple(a), b) == Triple(Mul(a, b))
  {
    hide *;
    TripleZero();
    MulZero(a);
    MulZero(b);
    MulZero(Triple(a));
    if a != ZERO && b != ZERO {
      ExpLog(a);
      ExpLog(b);
      ExpNext(Log(a));
      MulExp(Log(a) + 1, Log(b));
      MulExp(Log(a), Log(b));
      ExpNext(Log(a) + Log(b));
    }
  }

  lemma {:induction false} MulIsPeasantExp(i: nat, b: Elem)
    ensures Mul(Exp(i), b) == Peasant(Exp(i), Value(b.value))
  {
    hide Mul, Peasant, Double, Add, Exp, Value;
    if i == 0 {
      ExpZero();
      PeasantOne(b.value);
      MulOne(b);
    } else {
      var a, n := Exp(i - 1), Value(b.value);
      ExpNext(i - 1);
      MulTriple(a, b);
      MulIsPeasantExp(i - 1, b);
      PeasantAdd(a, Double(a), n);
      PeasantDouble(a, n);
    }
  }

  lemma ExpZero()
    ensures Exp(0) == ONE
  {
    ExpTableEnd();
  }

  lemma MulOne(a: Elem)
    ensures Mul(ONE, a) == a && Mul(a, ONE) == a
  {
    hide Exp;
    ExpZero();
    LogExp(0);
    if a != ZERO {
      ExpLog(a);
    }
  }

  lemma {:induction false} PeasantZero(n: nat)
    ensures Peasant(ZERO, n) == ZERO
    decreases n
  {
    hide Double, Add;
    DoubleZero();
    AddZero(ZERO);
    if n != 0 {
      PeasantZero(n / 2);
    }
  }

  // multiply's docstring: the slow method gives the same results as the tables.
  lemma {:induction false} MulIsPeasant(a: Elem, b: Elem)
    ensures Mul(a, b) == Peasant(a, Value(b.value))
  {
    hide Peasant, Value, Exp;
    if a == ZERO {
      PeasantZero(Value(b.value));
    } else {
      ExpLog(a);
      MulIsPeasantExp(Log(a), b);
    }
  }

  // The loop of the slow multiply.
  method SlowMultiply(x: Elem, y: Elem) returns (r: Elem)
    ensures r == Mul(x, y)
  {
    var b := Value(y.value);
    var p, sum := x, ZERO;
    hide Mul, Double, Add, Value;
    AddZero(Peasant(p, b));
    while b != 0
      invariant Add(sum, Peasant(p, b)) == Peasant(x, Value(y.value))
    {
      AddAssoc(sum, p, Peasant(Double(p), b / 2));
      AddZero(Peasant(Double(p), b / 2));
      if b % 2 == 1 {
        sum := Add(sum, p);
      }
      b := b / 2;
      p := ShiftReduce(p);
    }
    AddZero(sum);
    MulIsPeasant(x, y);
    r := sum;
  }

  // Shift a nine-bit register left and reduce by 0x11b when bit 8 is set.
  function ShiftReduce(p: Elem): (r: Elem)
    ensures r == Double(p)
  {
    var q := (p.value as bv9) << 1;
    Elem((if q & 0x100 != 0 then q ^ 0x11b else q) as bv8)
  }

  // ----- the field laws

  lemma {:induction false} MulComm(a: Elem, b: Elem)
    ensures Mul(a, b) == Mul(b, a)
  {
    hide Exp, Log;
  }

  lemma {:induction false} MulAssoc(a: Elem, b: Elem, c: Elem)
    ensures Mul(Mul(a, b), c) == Mul(a, Mul(b, c))
  {
    hide *;
    MulZero(a);
    MulZero(b);
    MulZero(c);
    MulZero(Mul(a, b));
    MulZero(Mul(b, c));
    if a != ZERO && b != ZERO && c != ZERO {
      ExpLog(a);
      ExpLog(b);
      ExpLog(c);
      MulExp(Log(a), Log(b));
      MulExp(Log(b), Log(c));
      MulExp(Log(a) + Log(b), Log(c));
      MulExp(Log(a), Log(b) + Log(c));
    }
  }

  lemma {:induction false} MulAdd(a: Elem, b: Elem, c: Elem)
    ensures Mul(Add(a, b), c) == Add(Mul(a, c), Mul(b, c))
    ensures Mul(c, Add(a, b)) == Add(Mul(c, a), Mul(c, b))
  {
    hide Mul, Add, Value;
    MulIsPeasant(a, c);
    MulIsPeasant(b, c);
    MulIsPeasant(Add(a, b), c);
    PeasantAdd(a, b, Value(c.value));
    MulComm(c, Add(a, b));
    MulComm(c, a);
    MulComm(c, b);
  }

  lemma {:induction false} MulNonzero(a: Elem, b: Elem)
    ensures Mul(a, b) == ZERO <==> a == ZERO || b == ZERO
  {
    hide Exp;
    if a != ZERO && b != ZERO {
      LogExp(Log(a) + Log(b));
    }
  }

  lemma InverseIsExp(a: Elem)
    requires a != ZERO
    ensures Inverse(a) == Exp(255 - Log(a))
  {
    hide ExpTable, LogTable, Index, Value;
    LogBelow255(a);
    if Log(a) == 0 {
      ExpTableEnd();
    }
  }

  // The last entry of the exponent table repeats the first.
  lemma ExpTableEnd()
    ensures ExpTable(Index(255)) == ExpTable(Index(0)) == 1
  {
    hide Value;
    Value255();
    IndexValue(255);
    TableEnds();
  }

  lemma {:induction false} MulInverse(a: Elem)
    requires a != ZERO
    ensures Inverse(a) != ZERO && Mul(a, Inverse(a)) == ONE
  {
    hide *;
    var e := Log(a);
    ExpLog(a);
    InverseIsExp(a);
    LogExp(255 - e);
    MulExp(e, 255 - e);
    ExpMod(255, 0);
    ExpZero();
  }

  // Equal elements, seen from their sum.
  lemma AddIsZero(a: Elem, b: Elem)
    ensures Add(a, b) == ZERO <==> a == b
  {}

  // ----- powers

  lemma PowZero(a: Elem)
    requires a != ZERO
    ensures Pow(a, 0) == ONE
  {
    hide Exp;
    ExpZero();
  }

  lemma {:induction false} PowAdd(a: Elem, i: int, j: int)
    requires a != ZERO
    ensures Pow(a, i) != ZERO
    ensures Mul(Pow(a, i), Pow(a, j)) == Pow(a, i + j)
  {
    hide Exp, Mul;
    LogExp(Log(a) * i);
    MulExp(Log(a) * i, Log(a) * j);
    assert Log(a) * i + Log(a) * j == Log(a) * (i + j);
  }

  lemma PowOne(a: Elem)
    requires a != ZERO
    ensures Pow(a, 1) == a
  {
    hide Exp;
    ExpLog(a);
  }

  lemma {:induction false} PowPow(a: Elem, i: int, j: int)
    requires a != ZERO
    ensures Pow(a, i) != ZERO && Pow(Pow(a, i), j) == Pow(a, i * j)
  {
    hide Exp, Log;
    var x := Log(a) * i;
    LogExp(x);
    assert x * j == 255 * (x / 255 * j) + (x % 255) * j by {
      assert x == 255 * (x / 255) + x % 255;
    }
    ExpPeriod((x % 255) * j, x / 255 * j);
    assert Log(a) * (i * j) == x * j;
  }

  // Negative powers are inverses of positive ones.
  lemma {:induction false} PowInverse(a: Elem, i: int)
    requires a != ZERO
    ensures Pow(a, i) != ZERO && Inverse(Pow(a, i)) == Pow(a, -i)
  {
    hide *;
    PowAdd(a, i, -i);
    PowZero(a);
    InverseUnique(Pow(a, i), Pow(a, -i));
  }

  lemma InverseUnique(a: Elem, b: Elem)
    requires a != ZERO && Mul(a, b) == ONE
    ensures b == Inverse(a)
  {
    hide *;
    MulInverse(a);
    MulAssoc(Inverse(a), a, b);
    MulComm(Inverse(a), a);
    MulOne(b);
    MulOne(Inverse(a));
  }

  // Cancelling a common factor.
  lemma MulCancel(a: Elem, b: Elem, c: Elem)
    requires a != ZERO && Mul(a, b) == Mul(a, c)
    ensures b == c
  {
    hide *;
    MulAdd(b, c, a);
    AddIsZero(Mul(a, b), Mul(a, c));
    MulNonzero(a, Add(b, c));
    AddIsZero(b, c);
  }

  lemma LogAlpha()
    ensures Log(ALPHA) == 1
  {
    hide ExpTable, LogTable;
    TableEnds();
    LogOfExpTable(1);
    assert Value(1) == 1;
  }

  // The generator has order 255: equal powers have congruent exponents, and conversely.
  lemma {:induction false} AlphaPowers(i: int, j: int)
    ensures Pow(ALPHA, i) == Pow(ALPHA, j) <==> i % 255 == j % 255
  {
    hide Exp, ExpTable, LogTable, Value;
    LogAlpha();
    LogExp(i);
    LogExp(j);
    if i % 255 == j % 255 {
      ExpMod(i, j);
    }
  }
}
