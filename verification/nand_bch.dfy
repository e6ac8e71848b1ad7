/** The generator of the NAND code: what it is made of, and so how many wrong bits a unit can bear. */
module NandBch {
  import opened Bch
  import opened Gf2
  import opened Lfsr
  import opened NandEcc
  import opened Words

  /** x^13 + x^4 + x^3 + x + 1, for the elements of the field. */
  const FIELD: Poly :=
    [true, true, false, true, true, false, false, false, false, false, false, false, false, true]

  // ---------------------------------------------------------------- elements as words

  type Word = bv13

  predicate Bit(w: Word, i: nat) {
    match i
    case 0 => w & 0x1 != 0
    case 1 => w & 0x2 != 0
    case 2 => w & 0x4 != 0
    case 3 => w & 0x8 != 0
    case 4 => w & 0x10 != 0
    case 5 => w & 0x20 != 0
    case 6 => w & 0x40 != 0
    case 7 => w & 0x80 != 0
    case 8 => w & 0x100 != 0
    case 9 => w & 0x200 != 0
    case 10 => w & 0x400 != 0
    case 11 => w & 0x800 != 0
    case 12 => w & 0x1000 != 0
    case _ => false
  }

  function Vec(w: Word): (v: Poly)
    ensures |v| == 13
  {
    seq(13, i requires 0 <= i => Bit(w, i))
  }

  /** Times a. */
  function X(w: Word): Word {
    var top := w >> 12;
    (w << 1) ^ top ^ (top << 1) ^ (top << 3) ^ (top << 4)
  }

  /** Times a^j. */
  function Shift(j: nat, w: Word): Word
    decreases j
  {
    if j >= 4 then Shift(j - 4, X(X(X(X(w))))) else if j >= 1 then Shift(j - 1, X(w)) else w
  }

  lemma FieldFits()
    ensures |FIELD| == 14 && Generator(FIELD) && Odd(FIELD)
  {
    assert !Parity(FIELD, 5);
    assert !Parity(FIELD, 13);
  }

  lemma BitOfXor(u: Word, w: Word, i: nat)
    requires i < 13
    ensures Bit(u ^ w, i) == (Bit(u, i) != Bit(w, i))
  {
    match i
    case 0 => assert Bit(u ^ w, 0) == (Bit(u, 0) != Bit(w, 0));
    case 1 => assert Bit(u ^ w, 1) == (Bit(u, 1) != Bit(w, 1));
    case 2 => assert Bit(u ^ w, 2) == (Bit(u, 2) != Bit(w, 2));
    case 3 => assert Bit(u ^ w, 3) == (Bit(u, 3) != Bit(w, 3));
    case 4 => assert Bit(u ^ w, 4) == (Bit(u, 4) != Bit(w, 4));
    case 5 => assert Bit(u ^ w, 5) == (Bit(u, 5) != Bit(w, 5));
    case 6 => assert Bit(u ^ w, 6) == (Bit(u, 6) != Bit(w, 6));
    case 7 => assert Bit(u ^ w, 7) == (Bit(u, 7) != Bit(w, 7));
    case 8 => assert Bit(u ^ w, 8) == (Bit(u, 8) != Bit(w, 8));
    case 9 => assert Bit(u ^ w, 9) == (Bit(u, 9) != Bit(w, 9));
    case 10 => assert Bit(u ^ w, 10) == (Bit(u, 10) != Bit(w, 10));
    case 11 => assert Bit(u ^ w, 11) == (Bit(u, 11) != Bit(w, 11));
    case 12 => assert Bit(u ^ w, 12) == (Bit(u, 12) != Bit(w, 12));
  }

  lemma VecXor(u: Word, w: Word)
    ensures Vec(u ^ w) == Xor(Vec(u), Vec(w))
  {
    forall i | 0 <= i < 13 ensures Vec(u ^ w)[i] == Xor(Vec(u), Vec(w))[i] { BitOfXor(u, w, i); }
  }

  lemma BitOfX(w: Word, i: nat)
    requires i < 13
    ensures |FIELD| == 14 && Bit(X(w), i) == ((i > 0 && Bit(w, i - 1)) != (FIELD[i] && Bit(w, 12)))
  {
    match i
    case 0 =>
    case 1 =>
    case 2 =>
    case 3 =>
    case 4 =>
    case 5 =>
    case 6 =>
    case 7 =>
    case 8 =>
    case 9 =>
    case 10 =>
    case 11 =>
    case 12 =>
    case _ =>
  }

  lemma VecX(w: Word)
    ensures |FIELD| == 14 && Vec(X(w)) == Step(FIELD, Vec(w), false)
  {
    forall i | 0 <= i < 13 ensures Vec(X(w))[i] == Step(FIELD, Vec(w), false)[i] { BitOfX(w, i); }
  }

  lemma VecSmall()
    ensures Vec(0) == Zeros(13) && Vec(1) == One(13)
  {}

  lemma {:induction false} VecShift(j: nat, w: Word)
    ensures |FIELD| == 14 && Vec(Shift(j, w)) == Pow(FIELD, j, Vec(w))
  {
    FieldFits();
    if j >= 4 {
      VecShift(j - 4, X(X(X(X(w)))));
      FourClocks(j - 4, w);
    } else if j >= 1 {
      VecShift(j - 1, X(w));
      OneClock(j - 1, w);
    } else {
      PowNext(FIELD, 0, Vec(w));
    }
  }

  lemma OneClock(j: nat, w: Word)
    ensures |FIELD| == 14 && Pow(FIELD, j, Vec(X(w))) == Pow(FIELD, j + 1, Vec(w))
  {
    FieldFits();
    VecX(w);
    PowNext(FIELD, 0, Vec(w));
    PowAdd(FIELD, j, 1, Vec(w));
  }

  lemma FourClocks(j: nat, w: Word)
    ensures |FIELD| == 14 && Pow(FIELD, j, Vec(X(X(X(X(w)))))) == Pow(FIELD, j + 4, Vec(w))
  {
    OneClock(j, X(X(X(w))));
    OneClock(j + 1, X(X(w)));
    OneClock(j + 2, X(w));
    OneClock(j + 3, w);
  }

  function Keep(b: bool, w: Word): Word {
    if b then w else 0
  }

  /** One coefficient more, in front. */
  lemma Horner(j: nat, b: bool, q: Poly, r: Word, v: Word)
    requires |FIELD| == 14 && At(FIELD, j, q, Vec(v)) == Vec(r)
    ensures At(FIELD, j, [b] + q, Vec(v)) == Vec(Keep(b, v) ^ Shift(j, r))
  {
    AtFront(FIELD, j, b, q, Vec(v));
    VecShift(j, r);
    VecSel(b, v);
    VecXor(Keep(b, v), Shift(j, r));
  }

  lemma VecSel(b: bool, v: Word)
    ensures Vec(Keep(b, v)) == Sel(b, Vec(v))
  {
    VecSmall();
  }

  // ---------------------------------------------------------------- the roots of the generator

  /** The n low bits of a word as coefficients, lowest first. */
  function Coefs(n: nat, w: Word): (p: Poly)
    ensures |p| == n
    decreases n
  {
    if n == 0 then [] else [w & 1 == 1] + Coefs(n - 1, w >> 1)
  }

  /** Their value at a^j, when r is that of the coefficients behind them. */
  function Value(j: nat, n: nat, w: Word, r: Word): Word
    decreases n
  {
    if n == 0 then r else (w & 1) ^ Shift(j, Value(j, n - 1, w >> 1, r))
  }

  /** Ten of them at once. */
  function Ten(j: nat, w: Word, r: Word): Word {
    var w1 := w >> 1;
    var w2 := w1 >> 1;
    var w3 := w2 >> 1;
    var w4 := w3 >> 1;
    var w5 := w4 >> 1;
    var w6 := w5 >> 1;
    var w7 := w6 >> 1;
    var w8 := w7 >> 1;
    var w9 := w8 >> 1;
    var s9 := (w9 & 1) ^ Shift(j, r);
    var s8 := (w8 & 1) ^ Shift(j, s9);
    var s7 := (w7 & 1) ^ Shift(j, s8);
    var s6 := (w6 & 1) ^ Shift(j, s7);
    var s5 := (w5 & 1) ^ Shift(j, s6);
    var s4 := (w4 & 1) ^ Shift(j, s5);
    var s3 := (w3 & 1) ^ Shift(j, s4);
    var s2 := (w2 & 1) ^ Shift(j, s3);
    var s1 := (w1 & 1) ^ Shift(j, s2);
    (w & 1) ^ Shift(j, s1)
  }

  lemma TenIsValue(j: nat, w: Word, r: Word)
    ensures Ten(j, w, r) == Value(j, 10, w, r)
  {}

  lemma LowBit(w: Word)
    ensures Keep(w & 1 == 1, 1) == w & 1
  {}

  lemma HornerBit(j: nat, w: Word, q: Poly, r: Word)
    requires |FIELD| == 14 && At(FIELD, j, q, Vec(1)) == Vec(r)
    ensures At(FIELD, j, [w & 1 == 1] + q, Vec(1)) == Vec((w & 1) ^ Shift(j, r))
  {
    LowBit(w);
    Horner(j, w & 1 == 1, q, r, 1);
  }

  lemma {:induction false} ValueAt(j: nat, n: nat, w: Word, q: Poly, r: Word)
    requires |FIELD| == 14 && At(FIELD, j, q, Vec(1)) == Vec(r)
    ensures At(FIELD, j, Coefs(n, w) + q, Vec(1)) == Vec(Value(j, n, w, r))
    decreases n
  {
    if n == 0 {
      assert Coefs(0, w) + q == q;
    } else {
      var (p, s) := (Coefs(n - 1, w >> 1), Value(j, n - 1, w >> 1, r));
      ValueAt(j, n - 1, w >> 1, q, r);
      HornerBit(j, w, p + q, s);
      Regroup([w & 1 == 1], p, q);
    }
  }

  lemma Regroup(a: Poly, b: Poly, c: Poly)
    ensures (a + b) + c == a + (b + c)
  {}

  lemma TenAt(j: nat, w: Word, q: Poly, r: Word)
    requires |FIELD| == 14 && At(FIELD, j, q, Vec(1)) == Vec(r)
    ensures At(FIELD, j, Coefs(10, w) + q, Vec(1)) == Vec(Ten(j, w, r))
  {
    ValueAt(j, 10, w, q, r);
    TenIsValue(j, w, r);
  }

  /** Forty coefficients, from four words. */
  lemma FortyAt(j: nat, a: Word, b: Word, c: Word, d: Word, q: Poly, r: Word)
    requires |FIELD| == 14 && At(FIELD, j, q, Vec(1)) == Vec(r)
    ensures At(FIELD, j, Coefs(10, a) + (Coefs(10, b) + (Coefs(10, c) + (Coefs(10, d) + q))), Vec(1))
            == Vec(Ten(j, a, Ten(j, b, Ten(j, c, Ten(j, d, r)))))
  {
    var (q3, r3) := (Coefs(10, d) + q, Ten(j, d, r));
    TenAt(j, d, q, r);
    var (q2, r2) := (Coefs(10, c) + q3, Ten(j, c, r3));
    TenAt(j, c, q3, r3);
    var (q1, r1) := (Coefs(10, b) + q2, Ten(j, b, r2));
    TenAt(j, b, q2, r2);
    TenAt(j, a, q1, r1);
  }

  lemma FirstRows()
    ensures Coefs(10, 0x17d) == [true, false, true, true, true, true, true, false, true, false]
    ensures Coefs(10, 0x26c) == [false, false, true, true, false, true, true, false, false, true]
  {}

  lemma SecondRows()
    ensures Coefs(10, 0x1cb) == [true, true, false, true, false, false, true, true, true, false]
    ensures Coefs(10, 0x3c3) == [true, true, false, false, false, false, true, true, true, true]
  {}

  lemma ThirdRows()
    ensures Coefs(10, 0xe4) == [false, false, true, false, false, true, true, true, false, false]
    ensures Coefs(10, 0x24c) == [false, false, true, true, false, false, true, false, false, true]
  {}

  lemma FourthRows()
    ensures Coefs(10, 0x3cc) == [false, false, true, true, false, false, true, true, true, true]
    ensures Coefs(10, 0x1fc) == [false, false, true, true, true, true, true, true, true] + [false]
  {}

  lemma Associate(a: Poly, b: Poly, c: Poly, d: Poly, e: Poly, f: Poly, g: Poly, h: Poly, z: Poly)
    ensures a + b + c + d + e + f + g + h + z == a + (b + (c + (d + (e + (f + (g + (h + z)))))))
  {
    Shift4(a, b, c, d, e + f + g + h + z);
    Shift4(e, f, g, h, z);
    assert a + b + c + d + e + f + g + h + z == a + b + c + d + (e + f + g + h + z);
  }

  lemma Shift4(a: Poly, b: Poly, c: Poly, d: Poly, z: Poly)
    ensures a + b + c + d + z == a + (b + (c + (d + z)))
  {}

  lemma Table()
    ensures GEN_POLY_6B + [false] ==
            Coefs(10, 0x17d) + (Coefs(10, 0x26c) + (Coefs(10, 0x1cb) + (Coefs(10, 0x3c3) + (
            Coefs(10, 0xe4) + (Coefs(10, 0x24c) + (Coefs(10, 0x3cc) + (Coefs(10, 0x1fc) + [])))))))
  {
    FirstRows();
    SecondRows();
    ThirdRows();
    FourthRows();
    Associate(Coefs(10, 0x17d), Coefs(10, 0x26c), Coefs(10, 0x1cb), Coefs(10, 0x3c3),
              Coefs(10, 0xe4), Coefs(10, 0x24c), Coefs(10, 0x3cc),
              [false, false, true, true, true, true, true, true, true], [false]);
    assert Coefs(10, 0x1fc) + [] == Coefs(10, 0x1fc);
  }

  /** The generator at a^j, its upper half first. */
  lemma RootFrom(j: nat, r: Word)
    requires Ten(j, 0xe4, Ten(j, 0x24c, Ten(j, 0x3cc, Ten(j, 0x1fc, 0)))) == r
    requires Ten(j, 0x17d, Ten(j, 0x26c, Ten(j, 0x1cb, Ten(j, 0x3c3, r)))) == 0
    ensures |FIELD| == 14 && Root(FIELD, j, GEN_POLY_6B)
  {
    FieldFits();
    VecSmall();
    var q := Coefs(10, 0xe4) + (Coefs(10, 0x24c) + (Coefs(10, 0x3cc) + (Coefs(10, 0x1fc) + [])));
    FortyAt(j, 0xe4, 0x24c, 0x3cc, 0x1fc, [], 0);
    FortyAt(j, 0x17d, 0x26c, 0x1cb, 0x3c3, q, r);
    Table();
    OneMoreZero(j, GEN_POLY_6B);
  }

  lemma OneMoreZero(j: nat, p: Poly)
    requires |FIELD| == 14
    ensures At(FIELD, j, p + [false], One(13)) == At(FIELD, j, p, One(13))
  {
    forall i: nat ensures Coef(p, i) == Coef(p + [false], i) {}
    AtSame(FIELD, j, p, p + [false], One(13));
  }

  lemma RootAt1()
    ensures |FIELD| == 14 && Root(FIELD, 1, GEN_POLY_6B)
  {
    RootFrom(1, 0x1b94);
  }

  lemma RootAt3()
    ensures |FIELD| == 14 && Root(FIELD, 3, GEN_POLY_6B)
  {
    RootFrom(3, 0x8eb);
  }

  lemma RootAt5()
    ensures |FIELD| == 14 && Root(FIELD, 5, GEN_POLY_6B)
  {
    RootFrom(5, 0x1962);
  }

  lemma RootAt7()
    ensures |FIELD| == 14 && Root(FIELD, 7, GEN_POLY_6B)
  {
    RootFrom(7, 0x195f);
  }

  lemma RootAt9()
    ensures |FIELD| == 14 && Root(FIELD, 9, GEN_POLY_6B)
  {
    RootFrom(9, 0x974);
  }

  lemma RootAt11()
    ensures |FIELD| == 14 && Root(FIELD, 11, GEN_POLY_6B)
  {
    RootFrom(11, 0x539);
  }

  /** a, a^2, .., a^12 are roots of the generator; with each root its square is one. */
  lemma {:induction false} GeneratorRoot(j: nat)
    requires 1 <= j <= 12
    ensures |FIELD| == 14 && Root(FIELD, j, GEN_POLY_6B)
  {
    if j % 2 == 0 {
      GeneratorRoot(j / 2);
      RootDoubles(FIELD, j / 2, GEN_POLY_6B);
      assert 2 * (j / 2) == j;
    } else {
      match j
      case 1 => RootAt1();
      case 3 => RootAt3();
      case 5 => RootAt5();
      case 7 => RootAt7();
      case 9 => RootAt9();
      case 11 => RootAt11();
    }
  }

  // ---------------------------------------------------------------- the order of a

  /** a^k, as a word. */
  ghost predicate IsPower(k: nat, b: Word) {
    |FIELD| == 14 && Pow(FIELD, k, One(13)) == Vec(b)
  }

  /** Twenty coefficients, from two words. */
  lemma TwentyAt(j: nat, a: Word, b: Word)
    ensures |FIELD| == 14 && At(FIELD, j, Coefs(10, a) + (Coefs(10, b) + []), Vec(1)) == Vec(Ten(j, a, Ten(j, b, 0)))
  {
    FieldFits();
    VecSmall();
    TenAt(j, b, [], 0);
    TenAt(j, a, Coefs(10, b) + [], Ten(j, b, 0));
  }

  /**
   * Squaring an element doubles its exponent. The words are the element, its bits from the tenth on, and its
   * square: the polynomial of its bits gives the element at a, and the square at a^2.
   */
  lemma Double(k: nat, b: Word, high: Word, c: Word)
    requires IsPower(k, b) && Ten(1, b, Ten(1, high, 0)) == b && Ten(2, b, Ten(2, high, 0)) == c
    ensures IsPower(2 * k, c)
  {
    VecSmall();
    TwentyAt(1, b, high);
    TwentyAt(2, b, high);
    SquareOfPower(FIELD, Coefs(10, b) + (Coefs(10, high) + []), k, One(13));
  }

  lemma PowerOne()
    ensures IsPower(1, 0x2)
  {
    FieldFits();
    VecSmall();
    PowNext(FIELD, 0, One(13));
    VecX(1);
  }

  lemma Power16()
    ensures IsPower(16, 0xd8)
  {
    PowerOne();
    Double(1, 0x2, 0x0, 0x4);
    Double(2, 0x4, 0x0, 0x10);
    Double(4, 0x10, 0x0, 0x100);
    Double(8, 0x100, 0x0, 0xd8);
  }

  lemma Power128()
    ensures IsPower(128, 0x1a61)
  {
    Power16();
    Double(16, 0xd8, 0x0, 0x1176);
    Double(32, 0x1176, 0x4, 0xd96);
    Double(64, 0xd96, 0x3, 0x1a61);
  }

  lemma Power1024()
    ensures IsPower(1024, 0x140c)
  {
    Power128();
    Double(128, 0x1a61, 0x6, 0x1920);
    Double(256, 0x1920, 0x6, 0xa99);
    Double(512, 0xa99, 0x2, 0x140c);
  }

  lemma Power8192()
    ensures IsPower(8192, 0x2)
  {
    Power1024();
    Double(1024, 0x140c, 0x5, 0x158a);
    Double(2048, 0x158a, 0x5, 0x1570);
    Double(4096, 0x1570, 0x5, 0x2);
  }

  /** Thirteen squarings of a give a again, so a^8191 is one. */
  lemma OrderOfA()
    ensures |FIELD| == 14 && Periodic(FIELD, One(13))
  {
    FieldFits();
    PowerOne();
    Power8192();
    PowAdd(FIELD, 1, ORDER, One(13));
    PowInjective(FIELD, 1, Pow(FIELD, ORDER, One(13)), One(13));
  }

  // ---------------------------------------------------------------- the distance of the code

  lemma FieldPrimitive()
    ensures Primitive(FIELD)
  {
    FieldFits();
    OrderOfA();
  }

  lemma {:induction false} MessageWeight(bits: seq<bool>)
    ensures Weight(Message(bits)) == Weight(bits)
  {
    if bits != [] {
      var last := |bits| - 1;
      MessageWeight(bits[..last]);
      WeightSnoc(bits[..last], bits[last]);
      assert bits == bits[..last] + [bits[last]];
      assert Message(bits)[1..] == Message(bits[..last]);
    }
  }

  lemma {:induction false} WeightSnoc(p: seq<bool>, b: bool)
    ensures Weight(p + [b]) == Weight(p) + if b then 1 else 0
  {
    if p == [] {
      assert [] + [b] == [b];
    } else {
      assert (p + [b])[1..] == p[1..] + [b];
      WeightSnoc(p[1..], b);
    }
  }

  lemma {:induction false} WeightZero(e: seq<bool>)
    requires Weight(e) == 0
    ensures e == Zeros(|e|)
  {
    if e != [] {
      WeightZero(e[1..]);
      assert e == [false] + Zeros(|e| - 1);
    }
  }

  lemma {:induction false} WeightXor(a: seq<bool>, b: seq<bool>)
    requires |a| == |b|
    ensures Weight(Xor(a, b)) <= Weight(a) + Weight(b)
  {
    if a != [] {
      WeightXor(a[1..], b[1..]);
      assert Xor(a, b)[1..] == Xor(a[1..], b[1..]);
    }
  }

  lemma GeneratorRoots()
    ensures RootsTo(FIELD, GEN_POLY_6B, 12)
  {
    FieldFits();
    forall j | 1 <= j <= 12 ensures Root(FIELD, j, GEN_POLY_6B) { GeneratorRoot(j); }
  }

  lemma LightMessage(m: Poly, g: Poly, e: seq<bool>, p: Poly, top: nat)
    requires Primitive(m) && RootsTo(m, g, top) && p == Message(e)
    requires |e| <= ORDER && Divides(g, p) && Weight(e) > 0
    ensures Weight(e) > top
  {
    assert Weight(p) == Weight(e) by { MessageWeight(e); }
    MultiplesApart(m, g, p, top);
  }

  /** A word of the code has no ones, or more than twelve. */
  lemma LightWord(e: seq<bool>, p: Poly)
    requires |e| <= ORDER && p == Message(e) && Divides(GEN_POLY_6B, p) && Weight(e) > 0
    ensures Weight(e) >= 13
  {
    FieldPrimitive();
    GeneratorRoots();
    LightMessage(FIELD, GEN_POLY_6B, e, p, 12);
  }

  /** Two words of the code are equal, or differ in thirteen bits or more. */
  lemma WordsApart(a: seq<bool>, b: seq<bool>)
    requires |a| == |b| <= ORDER && Divides(GEN_POLY_6B, Message(a)) && Divides(GEN_POLY_6B, Message(b))
    ensures a == b || Weight(Xor(a, b)) >= 13
  {
    GenPolyIsGenerator();
    var z := Zeros(78);
    ZeroRegisterIffDivisible(GEN_POLY_6B, a);
    ZeroRegisterIffDivisible(GEN_POLY_6B, b);
    FeedLinear(GEN_POLY_6B, z, z, a, b);
    XorSelf(z);
    ZeroRegisterIffDivisible(GEN_POLY_6B, Xor(a, b));
    if Weight(Xor(a, b)) == 0 {
      WeightZero(Xor(a, b));
      XorZero(a, b);
    } else {
      LightWord(Xor(a, b), Message(Xor(a, b)));
    }
  }

  /** Any one to twelve wrong bits of a sealed unit leave no word of the code. */
  lemma TwelveBitsDetected(unit: seq<byte>, e: seq<bool>)
    requires |unit| == 528 && Sealed(GEN_POLY_6B, unit) && |e| == 4222 && 0 < Weight(e) <= 12
    ensures !Divides(GEN_POLY_6B, Message(Xor(Codeword(unit), e)))
  {
    GenPolyIsGenerator();
    SealedIffCodeword(GEN_POLY_6B, unit);
    var sent, got := Codeword(unit), Xor(Codeword(unit), e);
    if Divides(GEN_POLY_6B, Message(got)) {
      WordsApart(sent, got);
      Difference(sent, e);
      if sent == got { XorSelf(sent); WeightOfZeros(|sent|); }
    }
  }

  lemma Difference(a: seq<bool>, e: seq<bool>)
    requires |a| == |e|
    ensures Xor(a, Xor(a, e)) == e
  {}

  lemma {:induction false} WeightOfZeros(n: nat)
    ensures Weight(Zeros(n)) == 0
  {
    if n > 0 {
      assert Zeros(n)[1..] == Zeros(n - 1);
      WeightOfZeros(n - 1);
    }
  }

  /** Up to six wrong bits can be put right: what is left determines the data and the tag. */
  lemma SixBitsCorrectable(u: seq<byte>, w: seq<byte>, e: seq<bool>, f: seq<bool>)
    requires |u| == |w| == 528 && Sealed(GEN_POLY_6B, u) && Sealed(GEN_POLY_6B, w)
    requires |e| == |f| == 4222 && Weight(e) <= 6 && Weight(f) <= 6
    requires Xor(Codeword(u), e) == Xor(Codeword(w), f)
    ensures Codeword(u) == Codeword(w) && u[..518] == w[..518]
  {
    GenPolyIsGenerator();
    SealedIffCodeword(GEN_POLY_6B, u);
    SealedIffCodeword(GEN_POLY_6B, w);
    WordsApart(Codeword(u), Codeword(w));
    SameDifference(Codeword(u), Codeword(w), e, f);
    WeightXor(e, f);
    DataOfCodeword(u, w);
  }

  lemma SameDifference(a: seq<bool>, b: seq<bool>, e: seq<bool>, f: seq<bool>)
    requires |a| == |b| == |e| == |f| && Xor(a, e) == Xor(b, f)
    ensures Xor(a, b) == Xor(e, f)
  {
    forall i | 0 <= i < |a| ensures Xor(a, b)[i] == Xor(e, f)[i] {
      assert Xor(a, e)[i] == Xor(b, f)[i];
    }
  }

  lemma DataOfCodeword(u: seq<byte>, w: seq<byte>)
    requires |u| == |w| == 528 && Codeword(u) == Codeword(w)
    ensures u[..518] == w[..518]
  {
    forall i: nat | i < 518 ensures u[i] == w[i] {
      forall k: nat | k < 8 ensures ToBit(u[i], k) == ToBit(w[i], k) {
        BitInCodeword(u, i, k);
        BitInCodeword(w, i, k);
      }
      SameBits(u[i], w[i], 8);
    }
  }

  lemma BitInCodeword(unit: seq<byte>, i: nat, k: nat)
    requires |unit| == 528 && i < 518 && k < 8
    ensures Codeword(unit)[8 * i + 7 - k] == ToBit(unit[i], k)
  {
    var t := 8 * i + 7 - k;
    assert t / 8 == i && t % 8 == 7 - k;
  }
}
