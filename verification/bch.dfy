/** The distance of a code whose generator has the roots a, a^2, .., a^top. */
module Bch {
  import opened Align
  import opened Gf2
  import opened Lfsr

  // The element a has order 8191. Elements are polynomials modulo m, a is x, and multiplying by a is a
  // clock of the register of m without input.

  const ORDER := 8191

  /** One, as an element. */
  function One(n: nat): (v: Poly)
    requires n > 0
    ensures |v| == n
  {
    [true] + Zeros(n - 1)
  }

  // ---------------------------------------------------------------- multiplication by powers of a

  /** Times a^k. */
  function Pow(m: Poly, k: nat, v: Poly): (r: Poly)
    requires Fits(m, v)
    ensures |r| == |v|
  {
    Feed(m, v, Zeros(k))
  }

  lemma PowNext(m: Poly, k: nat, v: Poly)
    requires Fits(m, v)
    ensures Pow(m, 0, v) == v && Pow(m, k + 1, v) == Step(m, Pow(m, k, v), false)
  {
    assert Zeros(k + 1)[..k] == Zeros(k);
  }

  lemma PowXor(m: Poly, k: nat, u: Poly, v: Poly)
    requires Fits(m, u) && |u| == |v|
    ensures Pow(m, k, Xor(u, v)) == Xor(Pow(m, k, u), Pow(m, k, v))
  {
    FeedLinear(m, u, v, Zeros(k), Zeros(k));
    XorSelf(Zeros(k));
  }

  lemma PowAdd(m: Poly, j: nat, k: nat, v: Poly)
    requires Fits(m, v)
    ensures Pow(m, j + k, v) == Pow(m, j, Pow(m, k, v))
  {
    FeedConcat(m, v, Zeros(k), Zeros(j));
    assert Zeros(k) + Zeros(j) == Zeros(j + k);
  }

  lemma PowCommutes(m: Poly, j: nat, k: nat, v: Poly)
    requires Fits(m, v)
    ensures Pow(m, j, Pow(m, k, v)) == Pow(m, k, Pow(m, j, v))
  {
    PowAdd(m, j, k, v);
    PowAdd(m, k, j, v);
  }

  lemma PowZero(m: Poly, k: nat, n: nat)
    requires |m| == n + 1 && n >= 1
    ensures Pow(m, k, Zeros(n)) == Zeros(n)
  {
    IdleZero(m, k, n);
  }

  lemma PowInjective(m: Poly, k: nat, u: Poly, v: Poly)
    requires Generator(m) && Fits(m, u) && |u| == |v| && Pow(m, k, u) == Pow(m, k, v)
    ensures u == v
  {
    PowXor(m, k, u, v);
    XorSelf(Pow(m, k, u));
    IdleInjective(m, Xor(u, v), k);
    XorZero(u, v);
  }

  lemma XorSelf(v: Poly)
    ensures Xor(v, v) == Zeros(|v|) && Xor(v, Zeros(|v|)) == v && Xor(Zeros(|v|), v) == v
  {}

  lemma XorSwap(a: Poly, b: Poly, c: Poly, d: Poly)
    requires |a| == |b| == |c| == |d|
    ensures Xor(Xor(a, b), Xor(c, d)) == Xor(Xor(a, c), Xor(b, d))
  {}

  // ---------------------------------------------------------------- polynomials at powers of a

  function Sel(b: bool, v: Poly): (r: Poly)
    ensures |r| == |v|
  {
    if b then v else Zeros(|v|)
  }

  /** p(a^j) times v. */
  function At(m: Poly, j: nat, p: Poly, v: Poly): (r: Poly)
    requires Fits(m, v)
    ensures |r| == |v|
    decreases |p|
  {
    if p == [] then Zeros(|v|) else Xor(Sel(p[0], v), Pow(m, j, At(m, j, p[1..], v)))
  }

  lemma AtFront(m: Poly, j: nat, b: bool, p: Poly, v: Poly)
    requires Fits(m, v)
    ensures At(m, j, [b] + p, v) == Xor(Sel(b, v), Pow(m, j, At(m, j, p, v)))
  {
    assert ([b] + p)[1..] == p;
  }

  lemma {:induction false} AtZero(m: Poly, j: nat, p: Poly, n: nat)
    requires |m| == n + 1 && n >= 1
    ensures At(m, j, p, Zeros(n)) == Zeros(n)
  {
    if p != [] {
      AtZero(m, j, p[1..], n);
      PowZero(m, j, n);
      XorSelf(Zeros(n));
    }
  }

  lemma PowSel(m: Poly, k: nat, b: bool, v: Poly)
    requires Fits(m, v)
    ensures Pow(m, k, Sel(b, v)) == Sel(b, Pow(m, k, v))
  {
    PowZero(m, k, |v|);
  }

  lemma {:induction false} AtPow(m: Poly, j: nat, p: Poly, k: nat, v: Poly)
    requires Fits(m, v)
    ensures At(m, j, p, Pow(m, k, v)) == Pow(m, k, At(m, j, p, v))
  {
    if p == [] {
      PowZero(m, k, |v|);
    } else {
      var w := At(m, j, p[1..], v);
      AtPow(m, j, p[1..], k, v);
      PowCommutes(m, j, k, w);
      PowXor(m, k, Sel(p[0], v), Pow(m, j, w));
      PowSel(m, k, p[0], v);
    }
  }

  lemma {:induction false} AtXor(m: Poly, j: nat, p: Poly, u: Poly, v: Poly)
    requires Fits(m, u) && |u| == |v|
    ensures At(m, j, p, Xor(u, v)) == Xor(At(m, j, p, u), At(m, j, p, v))
    decreases |p|
  {
    if p == [] {
      XorSelf(Zeros(|u|));
    } else {
      var (y, z) := (At(m, j, p[1..], u), At(m, j, p[1..], v));
      AtXor(m, j, p[1..], u, v);
      PowXor(m, j, y, z);
      SelOfXor(p[0], u, v);
      XorSwap(Sel(p[0], u), Sel(p[0], v), Pow(m, j, y), Pow(m, j, z));
    }
  }

  lemma SelOfXor(b: bool, u: Poly, v: Poly)
    requires |u| == |v|
    ensures Sel(b, Xor(u, v)) == Xor(Sel(b, u), Sel(b, v))
  {
    XorSelf(Zeros(|u|));
  }

  /** p(a^j) p(a^j) = p(a^2j), for the mixed terms cancel. */
  lemma {:induction false} AtSquare(m: Poly, j: nat, p: Poly, v: Poly)
    requires Fits(m, v)
    ensures At(m, j, p, At(m, j, p, v)) == At(m, 2 * j, p, v)
    decreases |p|
  {
    if p != [] {
      var (b, q) := (p[0], p[1..]);
      var w := At(m, j, q, v);
      AtSquare(m, j, q, v);
      AtXor(m, j, q, Sel(b, v), Pow(m, j, w));
      AtPow(m, j, q, j, w);
      AtSel(m, j, q, b, v);
      SquareStep(m, j, b, v, w, At(m, 2 * j, q, v));
    }
  }

  lemma AtSel(m: Poly, j: nat, p: Poly, b: bool, v: Poly)
    requires Fits(m, v)
    ensures At(m, j, p, Sel(b, v)) == Sel(b, At(m, j, p, v))
  {
    AtZero(m, j, p, |v|);
  }

  lemma SquareStep(m: Poly, j: nat, b: bool, v: Poly, w: Poly, s: Poly)
    requires Fits(m, v) && |w| == |s| == |v|
    ensures Xor(Sel(b, Xor(Sel(b, v), Pow(m, j, w))), Pow(m, j, Xor(Sel(b, w), Pow(m, j, s))))
            == Xor(Sel(b, v), Pow(m, 2 * j, s))
  {
    PowAdd(m, j, j, s);
    PowXor(m, j, Sel(b, w), Pow(m, j, s));
    PowSel(m, j, b, w);
    XorSelf(Pow(m, 2 * j, s));
    XorSelf(Zeros(|v|));
    if b {
      XorCancel(v, Pow(m, j, w), Pow(m, 2 * j, s));
    }
  }

  lemma XorCancel(u: Poly, v: Poly, w: Poly)
    requires |u| == |v| == |w|
    ensures Xor(Xor(u, v), Xor(v, w)) == Xor(u, w)
  {}

  /** If a^k is p(a), its square is p(a^2). */
  lemma SquareOfPower(m: Poly, p: Poly, k: nat, v: Poly)
    requires Fits(m, v) && Pow(m, k, v) == At(m, 1, p, v)
    ensures Pow(m, 2 * k, v) == At(m, 2, p, v)
  {
    PowAdd(m, k, k, v);
    AtPow(m, 1, p, k, v);
    AtSquare(m, 1, p, v);
  }

  lemma AddEmpty(p: Poly)
    ensures Add([], p) == p && Add(p, []) == p
  {
    forall k | 0 <= k < |p| ensures Add([], p)[k] == p[k] && Add(p, [])[k] == p[k] {
      assert Coef(Add([], p), k) == Coef(p, k) && Coef(Add(p, []), k) == Coef(p, k);
    }
  }

  lemma SelXor(a: bool, b: bool, v: Poly)
    ensures Xor(Sel(a, v), Sel(b, v)) == Sel(a != b, v)
  {
    XorSelf(v);
    XorSelf(Zeros(|v|));
  }

  lemma {:induction false} AtAdd(m: Poly, j: nat, p: Poly, q: Poly, v: Poly)
    requires Fits(m, v)
    ensures At(m, j, Add(p, q), v) == Xor(At(m, j, p, v), At(m, j, q, v))
    decreases |p|
  {
    if p == [] {
      AddEmpty(q);
      XorSelf(At(m, j, q, v));
    } else if q == [] {
      AddEmpty(p);
      XorSelf(At(m, j, p, v));
    } else {
      var (y, z) := (At(m, j, p[1..], v), At(m, j, q[1..], v));
      assert Coef(Add(p, q), 0) == (Coef(p, 0) != Coef(q, 0));
      AddTail(p, q);
      AtAdd(m, j, p[1..], q[1..], v);
      PowXor(m, j, y, z);
      SelXor(p[0], q[0], v);
      XorSwap(Sel(p[0], v), Sel(q[0], v), Pow(m, j, y), Pow(m, j, z));
    }
  }

  lemma {:induction false} AtTimes(m: Poly, j: nat, p: Poly, q: Poly, v: Poly)
    requires Fits(m, v)
    ensures At(m, j, Times(p, q), v) == At(m, j, p, At(m, j, q, v))
    decreases |p|
  {
    if p != [] {
      var rest := Times(p[1..], q);
      AtTimes(m, j, p[1..], q, v);
      AtFront(m, j, false, rest, v);
      XorSelf(Pow(m, j, At(m, j, rest, v)));
      AtAdd(m, j, if p[0] then q else [], [false] + rest, v);
    }
  }

  lemma {:induction false} AtNothing(m: Poly, j: nat, p: Poly, v: Poly)
    requires Fits(m, v) && IsZero(p)
    ensures At(m, j, p, v) == Zeros(|v|)
    decreases |p|
  {
    if p != [] {
      assert !Coef(p, 0);
      forall i: nat ensures !Coef(p[1..], i) { assert !Coef(p, i + 1); }
      AtNothing(m, j, p[1..], v);
      PowZero(m, j, |v|);
      XorSelf(Zeros(|v|));
    }
  }

  lemma AtSame(m: Poly, j: nat, p: Poly, q: Poly, v: Poly)
    requires Fits(m, v) && SamePoly(p, q)
    ensures At(m, j, p, v) == At(m, j, q, v)
  {
    forall i: nat ensures !Coef(Add(p, q), i) { assert Coef(p, i) == Coef(q, i); }
    AtNothing(m, j, Add(p, q), v);
    AtAdd(m, j, p, q, v);
    XorZero(At(m, j, p, v), At(m, j, q, v));
  }

  /** p(a^j) = 0 */
  ghost predicate Root(m: Poly, j: nat, p: Poly)
    requires |m| > 1
  {
    At(m, j, p, One(|m| - 1)) == Zeros(|m| - 1)
  }

  /** With each root its square is a root. */
  lemma RootDoubles(m: Poly, j: nat, p: Poly)
    requires |m| > 1 && Root(m, j, p)
    ensures Root(m, 2 * j, p)
  {
    AtSquare(m, j, p, One(|m| - 1));
    AtZero(m, j, p, |m| - 1);
  }

  /** Multiples of a polynomial share its roots. */
  lemma RootsShared(m: Poly, j: nat, g: Poly, p: Poly)
    requires |m| > 1 && Root(m, j, g) && Divides(g, p)
    ensures Root(m, j, p)
  {
    var q: Poly :| SamePoly(p, Times(q, g));
    AtSame(m, j, p, Times(q, g), One(|m| - 1));
    AtTimes(m, j, q, g, One(|m| - 1));
    AtZero(m, j, q, |m| - 1);
  }

  // ---------------------------------------------------------------- the order of a

  /** a has order 8191 as far as v is concerned. */
  ghost predicate Periodic(m: Poly, v: Poly)
    requires Fits(m, v)
  {
    Pow(m, ORDER, v) == v
  }

  /** The sum of the first i coefficients. */
  predicate Parity(m: Poly, i: nat)
    requires i <= |m|
  {
    i > 0 && Parity(m, i - 1) != m[i - 1]
  }

  /** m(1) = 1, so a is not 1. */
  predicate Odd(m: Poly) {
    Parity(m, |m|)
  }

  /** Bit k of v is the same after a clock. */
  predicate FixedAt(m: Poly, v: Poly, k: nat)
    requires Fits(m, v) && k < |v|
  {
    v[k] == ((k > 0 && v[k - 1]) != (m[k] && v[|v| - 1]))
  }

  lemma ClockAt(m: Poly, v: Poly, k: nat)
    requires Fits(m, v) && k < |v| && Step(m, v, false)[k] == v[k]
    ensures FixedAt(m, v, k)
  {}

  lemma {:induction false} FixedBits(m: Poly, v: Poly, k: nat)
    requires Fits(m, v) && k < |v| && forall i: nat | i < |v| :: FixedAt(m, v, i)
    ensures v[k] == (v[|v| - 1] && Parity(m, k + 1))
  {
    assert FixedAt(m, v, k);
    if k > 0 { FixedBits(m, v, k - 1); }
  }

  /** Only zero times a is itself. */
  lemma FixedIsZero(m: Poly, v: Poly)
    requires Generator(m) && Odd(m) && Fits(m, v) && Pow(m, 1, v) == v
    ensures v == Zeros(|v|)
  {
    PowNext(m, 0, v);
    forall k: nat | k < |v| ensures FixedAt(m, v, k) { ClockAt(m, v, k); }
    FixedBits(m, v, |v| - 1);
    forall k: nat | k < |v| ensures !v[k] { FixedBits(m, v, k); }
  }

  predicate NoDivisor(n: nat) {
    n < 2 || (ORDER % n != 0 && NoDivisor(n - 1))
  }

  lemma {:induction false} NoDivisorAt(n: nat, h: nat)
    requires NoDivisor(n) && 2 <= h <= n
    ensures ORDER % h != 0
  {
    if h < n { NoDivisorAt(n - 1, h); }
  }

  lemma SmallDivisors()
    ensures NoDivisor(90)
  {
    assert NoDivisor(10);
    assert NoDivisor(20);
    assert NoDivisor(30);
    assert NoDivisor(40);
    assert NoDivisor(50);
    assert NoDivisor(60);
    assert NoDivisor(70);
    assert NoDivisor(80);
  }

  lemma DivisorSmall(h: nat, k: nat)
    requires h * k == ORDER && h > 90
    ensures k <= 90
  {
    if k > 90 { Over90(h, k); }
  }

  lemma Over90(h: nat, k: nat)
    requires h > 90 && k > 90
    ensures h * k > ORDER
  {
    Product91(h - 91, k - 91);
  }

  lemma Product91(d: nat, e: nat)
    ensures (d + 91) * (e + 91) >= 91 * 91
  {
    calc {
      (d + 91) * (e + 91);
      (d + 91) * e + (d + 91) * 91;
      >= { NonNegative(d + 91, e); }
      (d + 91) * 91;
    }
  }

  lemma NonNegative(d: nat, e: nat)
    ensures d * e >= 0
  {}

  lemma DivisorMod(h: nat, k: nat)
    requires h * k == ORDER && h > 0
    ensures ORDER % h == 0
  {
    ModUnique(ORDER, h, k, 0);
  }

  lemma Distribute(h: nat, x: nat, y: nat)
    ensures h * (x + y) == h * x + h * y
  {}

  /** 8191 is a prime. */
  lemma OrderPrime(h: nat, k: nat)
    requires h * k == ORDER
    ensures h == 1 || k == 1
  {
    SmallDivisors();
    if h > 90 {
      DivisorSmall(h, k);
      assert k * h == ORDER;
      DivisorMod(k, h);
      if k >= 2 { NoDivisorAt(90, k); }
    } else {
      DivisorMod(h, k);
      if h >= 2 { NoDivisorAt(90, h); }
    }
  }

  /** Euclid: what two powers fix, their greatest common divisor fixes. */
  lemma {:induction false} Euclid(m: Poly, v: Poly, c: nat, d: nat) returns (h: nat, x: nat, y: nat)
    requires Generator(m) && Fits(m, v) && c > 0 && d > 0 && Pow(m, c, v) == v && Pow(m, d, v) == v
    ensures h > 0 && h * x == c && h * y == d && Pow(m, h, v) == v
    decreases c + d
  {
    if c == d {
      h, x, y := c, 1, 1;
    } else if c < d {
      DifferenceFixes(m, v, c, d);
      var z;
      h, x, z := Euclid(m, v, c, d - c);
      y := x + z;
      Distribute(h, x, z);
    } else {
      DifferenceFixes(m, v, d, c);
      var z;
      h, z, y := Euclid(m, v, c - d, d);
      x := z + y;
      Distribute(h, z, y);
    }
  }

  lemma DifferenceFixes(m: Poly, v: Poly, c: nat, d: nat)
    requires Generator(m) && Fits(m, v) && c < d && Pow(m, c, v) == v && Pow(m, d, v) == v
    ensures Pow(m, d - c, v) == v
  {
    PowAdd(m, c, d - c, v);
    PowInjective(m, c, Pow(m, d - c, v), v);
  }

  /** Powers of a below the order that agree on a value agree on zero. */
  lemma PowersDiffer(m: Poly, v: Poly, c: nat, d: nat)
    requires Generator(m) && Fits(m, v) && Odd(m) && Periodic(m, v)
    requires c < d < ORDER && Pow(m, c, v) == Pow(m, d, v)
    ensures v == Zeros(|v|)
  {
    PowAdd(m, c, d - c, v);
    PowInjective(m, c, v, Pow(m, d - c, v));
    var h, x, y := Euclid(m, v, d - c, ORDER);
    OrderPrime(h, y);
    if y == 1 {
      assert h == ORDER;
      TooLarge(h, x, d - c);
    }
    FixedIsZero(m, v);
  }

  lemma TooLarge(h: nat, x: nat, c: nat)
    requires h * x == c && 0 < c
    ensures c >= h
  {
    assert x >= 1;
  }

  // ---------------------------------------------------------------- sums over the places of an error

  /** The product of a^t + a^s over all s in l, times v. */
  function Product(m: Poly, l: seq<nat>, t: nat, v: Poly): (r: Poly)
    requires Fits(m, v)
    ensures |r| == |v|
    decreases |l|
  {
    if l == [] then v
    else Xor(Pow(m, t, Product(m, l[1..], t, v)), Pow(m, l[0], Product(m, l[1..], t, v)))
  }

  /** The sum over all t in ts of a^(c t) times that product times v. */
  function Sum(m: Poly, ts: seq<nat>, l: seq<nat>, c: nat, v: Poly): (r: Poly)
    requires Fits(m, v)
    ensures |r| == |v|
    decreases |ts|
  {
    if ts == [] then Zeros(|v|) else Xor(Pow(m, c * ts[0], Product(m, l, ts[0], v)), Sum(m, ts[1..], l, c, v))
  }

  lemma TermStep(m: Poly, t: nat, l: seq<nat>, c: nat, v: Poly)
    requires Fits(m, v) && l != []
    ensures var w := Product(m, l[1..], t, v);
            Pow(m, c * t, Product(m, l, t, v)) == Xor(Pow(m, (c + 1) * t, w), Pow(m, l[0], Pow(m, c * t, w)))
  {
    var w := Product(m, l[1..], t, v);
    PowXor(m, c * t, Pow(m, t, w), Pow(m, l[0], w));
    assert (c + 1) * t == c * t + t;
    PowAdd(m, c * t, t, w);
    PowCommutes(m, c * t, l[0], w);
  }

  /** One factor more is a power more, and a shift. */
  lemma {:induction false} SumStep(m: Poly, ts: seq<nat>, l: seq<nat>, c: nat, v: Poly)
    requires Fits(m, v) && l != []
    ensures Sum(m, ts, l, c, v) == Xor(Sum(m, ts, l[1..], c + 1, v), Pow(m, l[0], Sum(m, ts, l[1..], c, v)))
    decreases |ts|
  {
    if ts == [] {
      PowZero(m, l[0], |v|);
      XorSelf(Zeros(|v|));
    } else {
      var t, w := ts[0], Product(m, l[1..], ts[0], v);
      SumStep(m, ts[1..], l, c, v);
      TermStep(m, t, l, c, v);
      PowXor(m, l[0], Pow(m, c * t, w), Sum(m, ts[1..], l[1..], c, v));
      XorSwap(Pow(m, (c + 1) * t, w), Pow(m, l[0], Pow(m, c * t, w)),
              Sum(m, ts[1..], l[1..], c + 1, v), Pow(m, l[0], Sum(m, ts[1..], l[1..], c, v)));
    }
  }

  ghost predicate Vanishes(m: Poly, ts: seq<nat>, l: seq<nat>, c: nat, v: Poly)
    requires Fits(m, v)
  {
    Sum(m, ts, l, c, v) == Zeros(|v|)
  }

  lemma VanishStep(m: Poly, ts: seq<nat>, l: seq<nat>, c: nat, v: Poly)
    requires Fits(m, v) && l != [] && Vanishes(m, ts, l[1..], c, v) && Vanishes(m, ts, l[1..], c + 1, v)
    ensures Vanishes(m, ts, l, c, v)
  {
    SumStep(m, ts, l, c, v);
    PowZero(m, l[0], |v|);
    XorSelf(Zeros(|v|));
  }

  /** If the plain sums vanish up to some power, so do those with factors, as far as the power allows. */
  lemma {:induction false} SumVanishes(m: Poly, ts: seq<nat>, l: seq<nat>, c: nat, top: nat, v: Poly)
    requires Fits(m, v) && 1 <= c && c + |l| <= top
    requires forall j | 1 <= j <= top :: Vanishes(m, ts, [], j, v)
    ensures Vanishes(m, ts, l, c, v)
    decreases |l|
  {
    if l == [] {
      assert l == [] && Vanishes(m, ts, [], c, v);
    } else {
      SumVanishes(m, ts, l[1..], c + 1, top, v);
      SumVanishes(m, ts, l[1..], c, top, v);
      VanishStep(m, ts, l, c, v);
    }
  }

  lemma {:induction false} ProductOwn(m: Poly, l: seq<nat>, t: nat, v: Poly)
    requires Fits(m, v) && t in l
    ensures Product(m, l, t, v) == Zeros(|v|)
    decreases |l|
  {
    if l[0] == t {
      XorSelf(Pow(m, t, Product(m, l[1..], t, v)));
    } else {
      ProductOwn(m, l[1..], t, v);
      PowZero(m, t, |v|);
      PowZero(m, l[0], |v|);
      XorSelf(Zeros(|v|));
    }
  }

  lemma {:induction false} SumOfMembers(m: Poly, ts: seq<nat>, l: seq<nat>, c: nat, v: Poly)
    requires Fits(m, v) && forall i | 0 <= i < |ts| :: ts[i] in l
    ensures Sum(m, ts, l, c, v) == Zeros(|v|)
    decreases |ts|
  {
    if ts != [] {
      SumOfMembers(m, ts[1..], l, c, v);
      MemberTerm(m, ts[0], l, c, v);
      XorSelf(Zeros(|v|));
    }
  }

  lemma MemberTerm(m: Poly, t: nat, l: seq<nat>, c: nat, v: Poly)
    requires Fits(m, v) && t in l
    ensures Pow(m, c * t, Product(m, l, t, v)) == Zeros(|v|)
  {
    ProductOwn(m, l, t, v);
    PowZero(m, c * t, |v|);
  }

  lemma {:induction false} ProductPeriodic(m: Poly, l: seq<nat>, t: nat, v: Poly)
    requires Fits(m, v) && Periodic(m, v)
    ensures Periodic(m, Product(m, l, t, v))
    decreases |l|
  {
    if l != [] {
      var w := Product(m, l[1..], t, v);
      ProductPeriodic(m, l[1..], t, v);
      PowXor(m, ORDER, Pow(m, t, w), Pow(m, l[0], w));
      PowCommutes(m, ORDER, t, w);
      PowCommutes(m, ORDER, l[0], w);
    }
  }

  /** A product of differences is zero only if one of the places is t itself. */
  lemma {:induction false} ProductNonZero(m: Poly, l: seq<nat>, t: nat, v: Poly)
    requires Generator(m) && Fits(m, v) && Odd(m) && Periodic(m, v) && v != Zeros(|v|)
    requires t < ORDER && forall i | 0 <= i < |l| :: l[i] < ORDER && l[i] != t
    ensures Product(m, l, t, v) != Zeros(|v|)
    decreases |l|
  {
    if l != [] {
      var w := Product(m, l[1..], t, v);
      ProductNonZero(m, l[1..], t, v);
      ProductPeriodic(m, l[1..], t, v);
      if Product(m, l, t, v) == Zeros(|v|) {
        FactorInjective(m, w, l[0], t);
      }
    }
  }

  lemma FactorInjective(m: Poly, w: Poly, s: nat, t: nat)
    requires Generator(m) && Fits(m, w) && Odd(m) && Periodic(m, w) && s < ORDER && t < ORDER && s != t
    requires Xor(Pow(m, t, w), Pow(m, s, w)) == Zeros(|w|)
    ensures w == Zeros(|w|)
  {
    XorZero(Pow(m, t, w), Pow(m, s, w));
    if s < t { PowersDiffer(m, w, s, t); } else { PowersDiffer(m, w, t, s); }
  }

  // ---------------------------------------------------------------- the distance

  /** The exponents of a polynomial whose lowest one is at. */
  function Ones(p: Poly, at: nat): (s: seq<nat>)
    ensures forall i | 0 <= i < |s| :: at <= s[i] < at + |p|
    decreases |p|
  {
    if p == [] then [] else (if p[0] then [at] else []) + Ones(p[1..], at + 1)
  }

  lemma {:induction false} OnesSum(m: Poly, p: Poly, at: nat, j: nat, v: Poly)
    requires Fits(m, v)
    ensures Sum(m, Ones(p, at), [], j, v) == Pow(m, j * at, At(m, j, p, v))
    decreases |p|
  {
    if p == [] {
      PowZero(m, j * at, |v|);
    } else {
      OnesSum(m, p[1..], at + 1, j, v);
      OnesStep(m, p[0], at, j, At(m, j, p[1..], v), v);
      if p[0] {
        assert Ones(p, at)[1..] == Ones(p[1..], at + 1);
      } else {
        assert Ones(p, at) == Ones(p[1..], at + 1);
      }
    }
  }

  lemma OnesStep(m: Poly, b: bool, at: nat, j: nat, w: Poly, v: Poly)
    requires Fits(m, v) && |w| == |v|
    ensures var rest := Pow(m, j * (at + 1), w);
            Pow(m, j * at, Xor(Sel(b, v), Pow(m, j, w))) == if b then Xor(Pow(m, j * at, v), rest) else rest
  {
    var k := j * at;
    assert j * (at + 1) == k + j;
    PowAdd(m, k, j, w);
    PowXor(m, k, Sel(b, v), Pow(m, j, w));
    PowSel(m, k, b, v);
    XorSelf(Pow(m, k, Pow(m, j, w)));
  }

  /** Number of ones. */
  function Weight(bits: seq<bool>): nat {
    if bits == [] then 0 else (if bits[0] then 1 else 0) + Weight(bits[1..])
  }

  lemma {:induction false} OnesCount(p: Poly, at: nat)
    ensures |Ones(p, at)| == Weight(p)
    decreases |p|
  {
    if p != [] { OnesCount(p[1..], at + 1); }
  }

  /** The first exponent is below all others. */
  lemma {:induction false} OnesFirst(p: Poly, at: nat)
    requires Weight(p) > 0
    ensures var s := Ones(p, at); s != [] && forall i | 0 < i < |s| :: s[0] < s[i]
    decreases |p|
  {
    if p[0] {
      assert Ones(p, at)[1..] == Ones(p[1..], at + 1);
    } else {
      OnesFirst(p[1..], at + 1);
      assert Ones(p, at) == Ones(p[1..], at + 1);
    }
  }

  /** a has order 8191 modulo m. */
  ghost predicate Primitive(m: Poly) {
    |m| > 1 && Generator(m) && Odd(m) && Periodic(m, One(|m| - 1))
  }

  /**
   * A polynomial shorter than the order with all the roots a, a^2, .., a^top has more than top terms, or
   * none: the sum over its exponents t of a^t times the product of a^t + a^s, with s over all exponents
   * but the first, is zero, and has only one term, which is not.
   */
  lemma RootsApart(m: Poly, p: Poly, top: nat)
    requires Primitive(m) && |p| <= ORDER && 0 < Weight(p)
    requires forall j | 1 <= j <= top :: Root(m, j, p)
    ensures Weight(p) > top
  {
    var v, ts := One(|m| - 1), Ones(p, 0);
    OnesCount(p, 0);
    OnesFirst(p, 0);
    if Weight(p) <= top {
      forall j | 1 <= j <= top ensures Vanishes(m, ts, [], j, v) { RootSum(m, p, j); }
      SumVanishes(m, ts, ts[1..], 1, top, v);
      LoneTerm(m, ts);
    }
  }

  /** a, a^2, .., a^top are roots of g. */
  ghost predicate RootsTo(m: Poly, g: Poly, top: nat) {
    |m| > 1 && forall j | 1 <= j <= top :: Root(m, j, g)
  }

  /** A multiple of a polynomial with these roots has none or more than top ones. */
  lemma MultiplesApart(m: Poly, g: Poly, p: Poly, top: nat)
    requires Primitive(m) && RootsTo(m, g, top) && Divides(g, p) && |p| <= ORDER && 0 < Weight(p)
    ensures Weight(p) > top
  {
    forall j | 1 <= j <= top ensures Root(m, j, p) { RootsShared(m, j, g, p); }
    RootsApart(m, p, top);
  }

  lemma RootSum(m: Poly, p: Poly, j: nat)
    requires |m| > 1 && Root(m, j, p)
    ensures Sum(m, Ones(p, 0), [], j, One(|m| - 1)) == Zeros(|m| - 1)
  {
    OnesSum(m, p, 0, j, One(|m| - 1));
    assert j * 0 == 0;
    PowZero(m, j * 0, |m| - 1);
  }

  lemma LoneTerm(m: Poly, ts: seq<nat>)
    requires Primitive(m) && ts != [] && forall i | 0 < i < |ts| :: ts[0] < ts[i] < ORDER
    requires ts[0] < ORDER
    ensures Sum(m, ts, ts[1..], 1, One(|m| - 1)) != Zeros(|m| - 1)
  {
    OneNonZero(|m| - 1);
    LoneFactors(m, ts[0], ts[1..], One(|m| - 1));
  }

  lemma OneNonZero(n: nat)
    requires n > 0
    ensures One(n) != Zeros(n)
  {
    assert One(n)[0] && !Zeros(n)[0];
  }

  lemma LoneFactors(m: Poly, t: nat, l: seq<nat>, v: Poly)
    requires Generator(m) && Odd(m) && Fits(m, v) && Periodic(m, v) && v != Zeros(|v|)
    requires t < ORDER && forall i | 0 <= i < |l| :: l[i] < ORDER && l[i] != t
    ensures Sum(m, [t] + l, l, 1, v) != Zeros(|v|)
  {
    assert ([t] + l)[1..] == l;
    SumOfMembers(m, l, l, 1, v);
    ProductNonZero(m, l, t, v);
    LoneNonZero(m, t, Product(m, l, t, v));
  }

  lemma LoneNonZero(m: Poly, t: nat, w: Poly)
    requires Generator(m) && Fits(m, w) && w != Zeros(|w|)
    ensures Xor(Pow(m, 1 * t, w), Zeros(|w|)) != Zeros(|w|)
  {
    XorSelf(Pow(m, 1 * t, w));
    if Pow(m, 1 * t, w) == Zeros(|w|) {
      PowZero(m, 1 * t, |w|);
      PowInjective(m, 1 * t, w, Zeros(|w|));
    }
  }
}
