/**
 * Polynomials over GF(2) as bit sequences, least significant coefficient first. Leading zeros do not
 * count: two sequences are the same polynomial when all coefficients agree. Only what division by a
 * generator needs is here: sums, products, their degrees, and that remainders are unique.
 */
module Gf2 {
  type Poly = seq<bool>

  predicate Coef(p: Poly, i: nat) {
    i < |p| && p[i]
  }

  /** Equality up to leading zero coefficients. */
  ghost predicate SamePoly(p: Poly, q: Poly) {
    forall i: nat :: Coef(p, i) == Coef(q, i)
  }

  ghost predicate IsZero(p: Poly) {
    forall i: nat :: !Coef(p, i)
  }

  function Zeros(n: nat): (p: Poly)
    ensures |p| == n && IsZero(p)
  {
    seq(n, _ => false)
  }

  function Add(p: Poly, q: Poly): (r: Poly)
    ensures |r| == if |p| < |q| then |q| else |p|
    ensures forall i: nat {:trigger Coef(r, i)} :: Coef(r, i) == (Coef(p, i) != Coef(q, i))
  {
    seq(if |p| < |q| then |q| else |p|, i requires 0 <= i => Coef(p, i) != Coef(q, i))
  }

  /** x^n p. */
  function ShiftUp(n: nat, p: Poly): (r: Poly)
    ensures forall i: nat {:trigger Coef(r, i)} :: Coef(r, i) == (i >= n && Coef(p, i - n))
  {
    seq(n + |p|, i requires 0 <= i < n + |p| => i >= n && p[i - n])
  }

  /** Schoolbook product: p = p0 + x p', so p q = p0 q + x (p' q). */
  function Times(p: Poly, q: Poly): Poly {
    if p == [] then []
    else Add(if p[0] then q else [], [false] + Times(p[1..], q))
  }

  lemma TimesCoef(p: Poly, q: Poly, i: nat)
    requires p != []
    ensures Coef(Times(p, q), i) ==
            ((p[0] && Coef(q, i)) != (i > 0 && Coef(Times(p[1..], q), i - 1)))
  {
    var rest := Times(p[1..], q);
    assert i > 0 ==> Coef([false] + rest, i) == Coef(rest, i - 1);
  }

  lemma {:induction false} TimesZero(p: Poly, q: Poly)
    requires IsZero(p)
    ensures IsZero(Times(p, q))
  {
    if p != [] {
      assert !Coef(p, 0);
      assert IsZero(p[1..]) by {
        forall i: nat ensures !Coef(p[1..], i) { assert Coef(p[1..], i) == Coef(p, i + 1); }
      }
      TimesZero(p[1..], q);
      forall i: nat ensures !Coef(Times(p, q), i) { TimesCoef(p, q, i); }
    }
  }

  lemma AddTail(p: Poly, q: Poly)
    requires p != [] && q != []
    ensures Add(p, q)[1..] == Add(p[1..], q[1..])
  {
    forall i | 0 <= i < |Add(p, q)| - 1
      ensures Add(p, q)[1..][i] == Add(p[1..], q[1..])[i]
    {
      assert Coef(Add(p, q), i + 1) == (Coef(p, i + 1) != Coef(q, i + 1));
      assert Coef(Add(p[1..], q[1..]), i) == (Coef(p[1..], i) != Coef(q[1..], i));
    }
  }

  /** The product distributes over addition in its left argument. */
  lemma {:induction false} TimesAdd(p: Poly, q: Poly, g: Poly, i: nat)
    ensures Coef(Times(Add(p, q), g), i) == (Coef(Times(p, g), i) != Coef(Times(q, g), i))
  {
    if p == [] {
      assert Add(p, q) == q by {
        forall k | 0 <= k < |q| ensures Add(p, q)[k] == q[k] { assert Coef(Add(p, q), k) == Coef(q, k); }
      }
    } else if q == [] {
      assert Add(p, q) == p by {
        forall k | 0 <= k < |p| ensures Add(p, q)[k] == p[k] { assert Coef(Add(p, q), k) == Coef(p, k); }
      }
    } else {
      var s := Add(p, q);
      assert Coef(s, 0) == (Coef(p, 0) != Coef(q, 0));
      AddTail(p, q);
      TimesCoef(p, g, i);
      TimesCoef(q, g, i);
      TimesCoef(s, g, i);
      if i > 0 {
        TimesAdd(p[1..], q[1..], g, i - 1);
      }
    }
  }

  /** A non-zero multiple of a polynomial with top coefficient n reaches degree n or more. */
  lemma {:induction false} TimesDegree(p: Poly, g: Poly) returns (d: nat)
    requires g != [] && g[|g| - 1]
    requires !IsZero(p)
    ensures d >= |g| - 1 && Coef(Times(p, g), d)
  {
    if IsZero(p[1..]) {
      var k: nat :| Coef(p, k);
      if k > 0 { assert Coef(p[1..], k - 1); }
      d := |g| - 1;
      TimesZero(p[1..], g);
      TimesCoef(p, g, d);
    } else {
      var e := TimesDegree(p[1..], g);
      d := e + 1;
      TimesCoef(p, g, d);
    }
  }

  /** r is what is left of m after division by g. */
  ghost predicate IsRemainder(m: Poly, g: Poly, r: Poly) {
    |g| > 0 && |r| == |g| - 1 && exists q: Poly :: SamePoly(m, Add(Times(q, g), r))
  }

  lemma RemainderUnique(m: Poly, g: Poly, r: Poly, s: Poly)
    requires g != [] && g[|g| - 1]
    requires IsRemainder(m, g, r) && IsRemainder(m, g, s)
    ensures r == s
  {
    var p: Poly :| SamePoly(m, Add(Times(p, g), r));
    var q: Poly :| SamePoly(m, Add(Times(q, g), s));
    forall i: nat
      ensures Coef(Times(Add(p, q), g), i) == (Coef(r, i) != Coef(s, i))
    {
      TimesAdd(p, q, g, i);
      assert Coef(m, i) == Coef(Add(Times(p, g), r), i) == Coef(Add(Times(q, g), s), i);
    }
    if !IsZero(Add(p, q)) {
      var d := TimesDegree(Add(p, q), g);
      assert false;
    }
    TimesZero(Add(p, q), g);
    forall i | 0 <= i < |r| ensures r[i] == s[i] {
      assert !Coef(Times(Add(p, q), g), i);
      assert Coef(r, i) == Coef(s, i);
    }
  }
}
