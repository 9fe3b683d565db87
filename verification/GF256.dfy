/** The field GF(256) in which the heavy rows of the code live: bytes with
    XOR as addition and multiplication modulo the polynomial 0x14D.
    Proofs outside the first two sections hide Add and Mul and use only the laws. */
module GF256 {
  import opened Finite

  datatype Byte = Byte(bits: bv8)

  const ZERO := Byte(0)
  const ONE := Byte(1)

  // ---------- Addition ----------

  function Add(a: Byte, b: Byte): Byte {
    Byte(a.bits ^ b.bits)
  }

  lemma AddZero(a: Byte)
    ensures Add(a, ZERO) == a == Add(ZERO, a)
    ensures Add(a, a) == ZERO
  {}

  lemma AddComm(a: Byte, b: Byte)
    ensures Add(a, b) == Add(b, a)
  {}

  lemma AddAssoc(a: Byte, b: Byte, c: Byte)
    ensures Add(Add(a, b), c) == Add(a, Add(b, c))
  {}

  lemma AddCancel(a: Byte, b: Byte)
    ensures Add(a, Add(a, b)) == b
    ensures Add(Add(b, a), a) == b
  {}

  lemma AddSwap(a: Byte, b: Byte, c: Byte, d: Byte)
    ensures Add(Add(a, b), Add(c, d)) == Add(Add(a, c), Add(b, d))
  {}

  // ---------- Multiplication ----------

  /** x * a: one shift, reduced by the low byte of 0x14D when bit 7 falls out. */
  function Double(a: Byte): Byte {
    Byte((a.bits << 1) ^ ((a.bits >> 7) * 0x4D))
  }

  function Half(a: Byte): Byte {
    Byte(a.bits >> 1)
  }

  predicate Odd(a: Byte) {
    a.bits & 1 == 1
  }

  function If(c: bool, a: Byte): Byte {
    if c then a else ZERO
  }

  /** The product of a with the low n bits of b. */
  function MulFrom(a: Byte, b: Byte, n: nat): Byte
    decreases n
  {
    if n == 0 then ZERO else Add(If(Odd(b), a), MulFrom(Double(a), Half(b), n - 1))
  }

  function Mul(a: Byte, b: Byte): Byte {
    MulFrom(a, b, 8)
  }

  lemma DoubleAdd(a: Byte, b: Byte)
    ensures Double(Add(a, b)) == Add(Double(a), Double(b))
    ensures Double(ZERO) == ZERO
  {}

  lemma HalfAdd(a: Byte, b: Byte)
    ensures Half(Add(a, b)) == Add(Half(a), Half(b))
    ensures Odd(Add(a, b)) <==> Odd(a) != Odd(b)
    ensures Half(ZERO) == ZERO && !Odd(ZERO)
  {}

  lemma {:induction false} MulFromAddLeft(a: Byte, a': Byte, b: Byte, n: nat)
    ensures MulFrom(Add(a, a'), b, n) == Add(MulFrom(a, b, n), MulFrom(a', b, n))
    decreases n
  {
    hide Add, Double, Half, Odd;
    AddZero(ZERO);
    if n > 0 {
      DoubleAdd(a, a');
      MulFromAddLeft(Double(a), Double(a'), Half(b), n - 1);
      AddSwap(If(Odd(b), a), If(Odd(b), a'), MulFrom(Double(a), Half(b), n - 1), MulFrom(Double(a'), Half(b), n - 1));
    }
  }

  lemma {:induction false} MulFromAddRight(a: Byte, b: Byte, b': Byte, n: nat)
    ensures MulFrom(a, Add(b, b'), n) == Add(MulFrom(a, b, n), MulFrom(a, b', n))
    decreases n
  {
    hide Add, Double, Half, Odd;
    AddZero(ZERO);
    AddZero(a);
    if n > 0 {
      HalfAdd(b, b');
      MulFromAddRight(Double(a), Half(b), Half(b'), n - 1);
      AddSwap(If(Odd(b), a), If(Odd(b'), a), MulFrom(Double(a), Half(b), n - 1), MulFrom(Double(a), Half(b'), n - 1));
    }
  }

  lemma {:induction false} MulFromZero(a: Byte, n: nat)
    ensures MulFrom(a, ZERO, n) == ZERO
    ensures MulFrom(ZERO, a, n) == ZERO
    decreases n
  {
    hide Add, Double, Half, Odd;
    AddZero(ZERO);
    HalfAdd(ZERO, ZERO);
    DoubleAdd(ZERO, ZERO);
    if n > 0 {
      MulFromZero(Double(a), n - 1);
      MulFromZero(Half(a), n - 1);
    }
  }

  lemma {:induction false} DoubleMulFrom(a: Byte, b: Byte, n: nat)
    ensures Double(MulFrom(a, b, n)) == MulFrom(Double(a), b, n)
    decreases n
  {
    hide Add, Double, Half, Odd;
    DoubleAdd(If(Odd(b), a), MulFrom(Double(a), Half(b), if n > 0 then n - 1 else 0));
    if n > 0 {
      DoubleMulFrom(Double(a), Half(b), n - 1);
    }
  }

  /** Eight additions, nested from the right as MulFrom nests them. */
  function Sum8(a0: Byte, a1: Byte, a2: Byte, a3: Byte, a4: Byte, a5: Byte, a6: Byte, a7: Byte): Byte {
    Add(a0, Add(a1, Add(a2, Add(a3, Add(a4, Add(a5, Add(a6, a7)))))))
  }

  lemma HalfBits(b: Byte)
    ensures Odd(b) <==> b.bits & 1 == 1
    ensures Odd(Half(b)) <==> b.bits & 2 == 2
    ensures Odd(Half(Half(b))) <==> b.bits & 4 == 4
    ensures Odd(Half(Half(Half(b)))) <==> b.bits & 8 == 8
  {}

  lemma HalfBitsHigh(b: Byte)
    ensures Odd(Half(Half(Half(Half(b))))) <==> b.bits & 16 == 16
    ensures Odd(Half(Half(Half(Half(Half(b)))))) <==> b.bits & 32 == 32
    ensures Odd(Half(Half(Half(Half(Half(Half(b))))))) <==> b.bits & 64 == 64
    ensures Odd(Half(Half(Half(Half(Half(Half(Half(b)))))))) <==> b.bits & 128 == 128
  {}

  /** Mul with its eight steps written out. */
  lemma MulUnrolled(a: Byte, b: Byte)
    ensures Mul(a, b) ==
      var a1 := Double(a); var a2 := Double(a1); var a3 := Double(a2); var a4 := Double(a3);
      var a5 := Double(a4); var a6 := Double(a5); var a7 := Double(a6);
      Sum8(If(b.bits & 1 == 1, a), If(b.bits & 2 == 2, a1), If(b.bits & 4 == 4, a2), If(b.bits & 8 == 8, a3),
           If(b.bits & 16 == 16, a4), If(b.bits & 32 == 32, a5), If(b.bits & 64 == 64, a6), If(b.bits & 128 == 128, a7))
  {
    hide Add, Double, Half, Odd;
    HalfBits(b);
    HalfBitsHigh(b);
    var a1 := Double(a); var a2 := Double(a1); var a3 := Double(a2); var a4 := Double(a3);
    var a5 := Double(a4); var a6 := Double(a5); var a7 := Double(a6);
    var b1 := Half(b); var b2 := Half(b1); var b3 := Half(b2); var b4 := Half(b3);
    var b5 := Half(b4); var b6 := Half(b5); var b7 := Half(b6);
    assert MulFrom(Double(a7), Half(b7), 0) == ZERO;
    AddZero(If(Odd(b7), a7));
    assert MulFrom(a7, b7, 1) == If(Odd(b7), a7);
    assert MulFrom(a6, b6, 2) == Add(If(Odd(b6), a6), MulFrom(a7, b7, 1));
    assert MulFrom(a5, b5, 3) == Add(If(Odd(b5), a5), MulFrom(a6, b6, 2));
    assert MulFrom(a4, b4, 4) == Add(If(Odd(b4), a4), MulFrom(a5, b5, 3));
    assert MulFrom(a3, b3, 5) == Add(If(Odd(b3), a3), MulFrom(a4, b4, 4));
    assert MulFrom(a2, b2, 6) == Add(If(Odd(b2), a2), MulFrom(a3, b3, 5));
    assert MulFrom(a1, b1, 7) == Add(If(Odd(b1), a1), MulFrom(a2, b2, 6));
  }

  /** b without bit 7, and that part shifted up. */
  function Low(b: Byte): Byte {
    Byte(b.bits & 0x7F)
  }

  function Shifted(b: Byte): Byte {
    Byte(b.bits << 1)
  }

  lemma TopBit(b: Byte)
    ensures b == Add(Low(b), If(b.bits & 128 == 128, Byte(128)))
    ensures Double(b) == Add(Shifted(b), If(b.bits & 128 == 128, Byte(0x4D)))
  {}

  lemma ShiftedBits(b: Byte)
    ensures
      var s := Shifted(b).bits;
      && !(s & 1 == 1) && (s & 2 == 2 <==> b.bits & 1 == 1) && (s & 4 == 4 <==> b.bits & 2 == 2)
      && (s & 8 == 8 <==> b.bits & 4 == 4) && (s & 16 == 16 <==> b.bits & 8 == 8)
        && (s & 32 == 32 <==> b.bits & 16 == 16)
      && (s & 64 == 64 <==> b.bits & 32 == 32) && (s & 128 == 128 <==> b.bits & 64 == 64)
  {}

  lemma LowBits(b: Byte)
    ensures
      var s := Low(b).bits;
      && (s & 1 == 1 <==> b.bits & 1 == 1) && (s & 2 == 2 <==> b.bits & 2 == 2) && (s & 4 == 4 <==> b.bits & 4 == 4)
      && (s & 8 == 8 <==> b.bits & 8 == 8) && (s & 16 == 16 <==> b.bits & 16 == 16)
        && (s & 32 == 32 <==> b.bits & 32 == 32)
      && (s & 64 == 64 <==> b.bits & 64 == 64) && !(s & 128 == 128)
  {}

  /** x^8 = x^6 + x^3 + x^2 + 1 modulo the polynomial. */
  lemma DoubleEight(a: Byte)
    ensures
      var a2 := Double(Double(a)); var a3 := Double(a2); var a6 := Double(Double(Double(a3)));
      Double(Double(a6)) == Add(a, Add(a2, Add(a3, a6)))
  {}

  lemma SumShift(x1: Byte, x2: Byte, x3: Byte, x4: Byte, x5: Byte, x6: Byte, x7: Byte)
    ensures Sum8(ZERO, x1, x2, x3, x4, x5, x6, x7) == Sum8(x1, x2, x3, x4, x5, x6, x7, ZERO)
  {
    hide Add;
    AddZero(x7);
    AddZero(Add(x1, Add(x2, Add(x3, Add(x4, Add(x5, Add(x6, x7)))))));
  }

  lemma MulByPoly(a: Byte)
    ensures Mul(a, Byte(0x4D)) == Mul(Double(a), Byte(128))
  {
    hide Add, Double, MulFrom;
    MulUnrolled(a, Byte(0x4D));
    MulUnrolled(Double(a), Byte(128));
    DoubleEight(a);
    forall x { AddZero(x); }
  }

  lemma MulByShifted(a: Byte, b: Byte)
    ensures Mul(a, Shifted(b)) == Mul(Double(a), Low(b))
  {
    hide Add, Double, Sum8, MulFrom;
    MulUnrolled(a, Shifted(b));
    MulUnrolled(Double(a), Low(b));
    ShiftedBits(b);
    LowBits(b);
    hide Shifted, Low;
    var a1 := Double(a); var a2 := Double(a1); var a3 := Double(a2); var a4 := Double(a3);
    var a5 := Double(a4); var a6 := Double(a5); var a7 := Double(a6);
    SumShift(If(b.bits & 1 == 1, a1), If(b.bits & 2 == 2, a2), If(b.bits & 4 == 4, a3), If(b.bits & 8 == 8, a4),
             If(b.bits & 16 == 16, a5), If(b.bits & 32 == 32, a6), If(b.bits & 64 == 64, a7));
  }

  lemma MulDouble(a: Byte, b: Byte)
    ensures Mul(a, Double(b)) == Mul(Double(a), b) == Double(Mul(a, b))
  {
    hide Add, Double, MulFrom, Low, Shifted;
    DoubleMulFrom(a, b, 8);
    TopBit(b);
    MulByPoly(a);
    MulByShifted(a, b);
    MulAddRight(a, Shifted(b), If(b.bits & 128 == 128, Byte(0x4D)));
    MulAddRight(Double(a), Low(b), If(b.bits & 128 == 128, Byte(128)));
    MulZero(a);
    MulZero(Double(a));
  }

  lemma MulZero(a: Byte)
    ensures Mul(a, ZERO) == ZERO == Mul(ZERO, a)
  {
    MulFromZero(a, 8);
  }

  lemma MulOne(a: Byte)
    ensures Mul(a, ONE) == a == Mul(ONE, a)
  {
    MulUnrolled(a, ONE);
    MulUnrolled(ONE, a);
  }

  lemma MulAddRight(a: Byte, b: Byte, c: Byte)
    ensures Mul(a, Add(b, c)) == Add(Mul(a, b), Mul(a, c))
  {
    MulFromAddRight(a, b, c, 8);
  }

  lemma MulAddLeft(a: Byte, b: Byte, c: Byte)
    ensures Mul(Add(a, b), c) == Add(Mul(a, c), Mul(b, c))
  {
    MulFromAddLeft(a, b, c, 8);
  }

  lemma {:induction false} MulFromAssoc(a: Byte, b: Byte, c: Byte, n: nat)
    ensures MulFrom(Mul(a, b), c, n) == Mul(a, MulFrom(b, c, n))
    decreases n
  {
    hide Add, Double, Half, Odd, Mul;
    MulZero(a);
    if n > 0 {
      MulDouble(a, b);
      MulFromAssoc(a, Double(b), Half(c), n - 1);
      MulAddRight(a, If(Odd(c), b), MulFrom(Double(b), Half(c), n - 1));
    }
  }

  lemma MulAssoc(a: Byte, b: Byte, c: Byte)
    ensures Mul(Mul(a, b), c) == Mul(a, Mul(b, c))
  {
    MulFromAssoc(a, b, c, 8);
  }

  lemma {:induction false} MulFromComm(a: Byte, b: Byte, n: nat)
    ensures MulFrom(a, b, n) == Mul(MulFrom(ONE, b, n), a)
    decreases n
  {
    hide Add, Double, Half, Odd, Mul;
    MulZero(a);
    MulOne(a);
    if n > 0 {
      var u := MulFrom(ONE, Half(b), n - 1);
      MulFromComm(Double(a), Half(b), n - 1);
      DoubleMulFrom(ONE, Half(b), n - 1);
      MulDouble(u, a);
      MulAddLeft(If(Odd(b), ONE), MulFrom(Double(ONE), Half(b), n - 1), a);
    }
  }

  lemma MulComm(a: Byte, b: Byte)
    ensures Mul(a, b) == Mul(b, a)
  {
    MulFromComm(a, b, 8);
    MulOne(b);
  }

  // ---------- Powers of x, and division ----------

  /** The i-th power of x. */
  function Exp(i: nat): Byte {
    if i == 0 then ONE else Double(Exp(i - 1))
  }

  lemma {:induction false} ExpAdd(i: nat, j: nat)
    ensures Exp(i + j) == Mul(Exp(i), Exp(j))
  {
    hide Double, Mul;
    if j == 0 {
      MulOne(Exp(i));
    } else {
      ExpAdd(i, j - 1);
      MulDouble(Exp(i), Exp(j - 1));
    }
  }

  /** Eight doublings of v, none of which gives one. */
  predicate Clean(v: bv8) {
    var d1 := Double(Byte(v)); var d2 := Double(d1); var d3 := Double(d2); var d4 := Double(d3);
    var d5 := Double(d4); var d6 := Double(d5); var d7 := Double(d6);
    ONE != d1 && ONE != d2 && ONE != d3 && ONE != d4 && ONE != d5 && ONE != d6 && ONE != d7
  }

  lemma ExpBlock(i: nat, v: bv8, w: bv8)
    requires Exp(i) == Byte(v)
    requires Clean(v)
    requires Double(Double(Double(Double(Double(Double(Double(Double(Byte(v))))))))) == Byte(w)
    ensures Exp(i + 8) == Byte(w)
    ensures forall k :: i < k < i + 8 ==> Exp(k) != ONE
  {
    hide Double;
    assert Exp(i + 1) == Double(Exp(i));
    assert Exp(i + 2) == Double(Exp(i + 1));
    assert Exp(i + 3) == Double(Exp(i + 2));
    assert Exp(i + 4) == Double(Exp(i + 3));
    assert Exp(i + 5) == Double(Exp(i + 4));
    assert Exp(i + 6) == Double(Exp(i + 5));
    assert Exp(i + 7) == Double(Exp(i + 6));
    assert Exp(i + 8) == Double(Exp(i + 7));
  }

  lemma ExpQuarter0()
    requires Exp(0) == Byte(0x01)
    ensures Exp(64) == Byte(0xEB)
    ensures forall k :: 0 < k < 64 ==> Exp(k) != ONE
  {
    hide Exp;
    ExpBlock(0, 0x01, 0x4D);
    ExpBlock(8, 0x4D, 0xF8);
    ExpBlock(16, 0xF8, 0x06);
    ExpBlock(24, 0x06, 0xE3);
    ExpBlock(32, 0xE3, 0x8A);
    ExpBlock(40, 0x8A, 0x14);
    ExpBlock(48, 0x14, 0xD0);
    ExpBlock(56, 0xD0, 0xEB);
  }

  lemma ExpQuarter1()
    requires Exp(64) == Byte(0xEB)
    ensures Exp(128) == Byte(0xAB)
    ensures forall k :: 64 < k < 128 ==> Exp(k) != ONE
  {
    hide Exp;
    ExpBlock(64, 0xEB, 0x78);
    ExpBlock(72, 0x78, 0x7A);
    ExpBlock(80, 0x7A, 0xE0);
    ExpBlock(88, 0xE0, 0x5D);
    ExpBlock(96, 0x5D, 0x51);
    ExpBlock(104, 0x51, 0xDA);
    ExpBlock(112, 0xDA, 0x83);
    ExpBlock(120, 0x83, 0xAB);
  }

  lemma ExpQuarter2()
    requires Exp(128) == Byte(0xAB)
    ensures Exp(192) == Byte(0xB5)
    ensures forall k :: 128 < k < 192 ==> Exp(k) != ONE
  {
    hide Exp;
    ExpBlock(128, 0xAB, 0x46);
    ExpBlock(136, 0x46, 0xDD);
    ExpBlock(144, 0xDD, 0x2D);
    ExpBlock(152, 0x2D, 0xD9);
    ExpBlock(160, 0xD9, 0x54);
    ExpBlock(168, 0x54, 0xEE);
    ExpBlock(176, 0xEE, 0x4C);
    ExpBlock(184, 0x4C, 0xB5);
  }

  lemma ExpQuarter3()
    requires Exp(192) == Byte(0xB5)
    ensures Exp(248) == Byte(0x93)
    ensures forall k :: 192 < k < 248 ==> Exp(k) != ONE
  {
    hide Exp;
    ExpBlock(192, 0xB5, 0xFE);
    ExpBlock(200, 0xFE, 0xE5);
    ExpBlock(208, 0xE5, 0x69);
    ExpBlock(216, 0x69, 0x9E);
    ExpBlock(224, 0x9E, 0xC4);
    ExpBlock(232, 0xC4, 0x3B);
    ExpBlock(240, 0x3B, 0x93);
  }

  /** x has order 255: no smaller positive power of it is one. */
  lemma ExpOrder()
    ensures Exp(255) == ONE
    ensures forall k :: 0 < k < 255 ==> Exp(k) != ONE
  {
    assert Exp(0) == Byte(1);
    ExpQuarter0();
    ExpQuarter1();
    ExpQuarter2();
    ExpQuarter3();
    assert Exp(249) == Double(Exp(248));
    assert Exp(250) == Double(Exp(249));
    assert Exp(251) == Double(Exp(250));
    assert Exp(252) == Double(Exp(251));
    assert Exp(253) == Double(Exp(252));
    assert Exp(254) == Double(Exp(253));
  }

  /** The powers x^1 .. x^255 are pairwise different ... */
  lemma ExpInjective(i: nat, j: nat)
    requires 0 < i < j <= 255
    ensures Exp(i) != Exp(j)
  {
    hide Double, Mul, Exp;
    if Exp(i) == Exp(j) {
      ExpOrder();
      ExpAdd(i, j - i);
      ExpAdd(255 - i, i);
      MulAssoc(Exp(255 - i), Exp(i), Exp(j - i));
      MulOne(Exp(j - i));
    }
  }

  function Num(a: Byte): nat {
    a.bits as nat
  }

  lemma NumBack(a: Byte)
    ensures Num(a) < 256 && a.bits == Num(a) as bv8
  {}

  lemma NumInjective(a: Byte, b: Byte)
    ensures Num(a) < 256
    ensures Num(a) == Num(b) ==> a == b
    ensures a != ZERO ==> 0 < Num(a)
  {
    hide Num;
    NumBack(a);
    NumBack(b);
  }

  /** ... and therefore exhaust the non-zero bytes. */
  ghost function Powers(): (r: seq<nat>)
    ensures |r| == 256
    ensures forall i :: 0 < i <= 255 ==> r[i] == Num(Exp(i))
    ensures r[0] == 0
  {
    seq(256, i requires 0 <= i < 256 => if i == 0 then 0 else Num(Exp(i)))
  }

  lemma {:induction false} ExpNonZero(i: nat)
    ensures Exp(i) != ZERO
  {
    if i > 0 { ExpNonZero(i - 1); }
  }

  lemma PowersDiffer()
    ensures forall i, j :: 0 <= i < j < 256 ==> Powers()[i] != Powers()[j]
    ensures forall v :: v in Powers() ==> v < 256
  {
    hide Num, Exp;
    var s := Powers();
    forall i, j | 0 <= i < j < 256 ensures s[i] != s[j] {
      ExpNonZero(j);
      NumInjective(Exp(j), Exp(j));
      if i > 0 {
        NumInjective(Exp(i), Exp(j));
        ExpInjective(i, j);
      }
    }
    forall i | 0 < i < 256 ensures s[i] < 256 { NumInjective(Exp(i), Exp(i)); }
  }

  lemma ExpOnto(a: Byte)
    requires a != ZERO
    ensures exists i :: 0 < i <= 255 && Exp(i) == a
  {
    hide Num, Exp;
    var s := Powers();
    PowersDiffer();
    ElementsSize(s);
    RangeFull(256, Elements(s));
    NumInjective(a, a);
    assert Num(a) in s;
    var i :| 0 <= i < 256 && s[i] == Num(a);
    NumInjective(a, Exp(i));
  }

  /** The exponent of a non-zero byte, between 1 and 255. */
  function LogFrom(a: Byte, i: nat): nat
    requires i <= 255
    decreases 255 - i
  {
    if i == 255 || Exp(i) == a then i else LogFrom(a, i + 1)
  }

  function Log(a: Byte): nat {
    LogFrom(a, 1)
  }

  lemma {:induction false} LogFromFinds(a: Byte, i: nat, j: nat)
    requires 0 < i <= j <= 255 && Exp(j) == a
    ensures i <= LogFrom(a, i) <= 255 && Exp(LogFrom(a, i)) == a
    decreases 255 - i
  {
    if i < 255 && Exp(i) != a {
      LogFromFinds(a, i + 1, j);
    }
  }

  lemma ExpLog(a: Byte)
    requires a != ZERO
    ensures 0 < Log(a) <= 255 && Exp(Log(a)) == a
  {
    ExpOnto(a);
    var j :| 0 < j <= 255 && Exp(j) == a;
    LogFromFinds(a, 1, j);
  }

  /** x / y; zero when either is zero, as in the division table. */
  function Div(x: Byte, y: Byte): Byte {
    if x == ZERO || y == ZERO then ZERO
    else ExpLog(x); ExpLog(y); Exp(Log(x) + (255 - Log(y)))
  }

  lemma DivMul(x: Byte, y: Byte)
    requires y != ZERO
    ensures Mul(Div(x, y), y) == x
  {
    hide Double, Mul, LogFrom;
    MulZero(y);
    if x != ZERO {
      ExpLog(x);
      ExpLog(y);
      ExpAdd(Log(x), 255 - Log(y));
      ExpAdd(255 - Log(y), Log(y));
      MulAssoc(Exp(Log(x)), Exp(255 - Log(y)), y);
      ExpOrder();
      MulOne(x);
    }
  }

  lemma MulCancel(x: Byte, x': Byte, y: Byte)
    requires y != ZERO && Mul(x, y) == Mul(x', y)
    ensures x == x'
  {
    hide Double, Mul, Div;
    var z := Div(ONE, y);
    DivMul(ONE, y);
    MulComm(z, y);
    MulAssoc(x, y, z);
    MulAssoc(x', y, z);
    MulOne(x);
    MulOne(x');
  }

  lemma DivOne(x: Byte)
    ensures Div(x, ONE) == x
  {
    hide Mul, Div;
    DivMul(x, ONE);
    MulOne(Div(x, ONE));
  }
}
