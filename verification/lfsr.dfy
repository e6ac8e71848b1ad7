/**
 * The bit-serial division register behind the NAND ECC, for any generator g of degree n
 * with g[0] = g[n] = 1. Bits arrive in transmission order, most significant first.
 */
module Lfsr {
  import opened Gf2

  ghost predicate Generator(g: Poly) {
    |g| >= 2 && g[0] && g[|g| - 1]
  }

  predicate Fits(g: Poly, r: Poly) {
    |r| >= 1 && |g| == |r| + 1
  }

  /** One clock: shift left, and add g when the bit leaving the top differs from the input. */
  function Step(g: Poly, r: Poly, b: bool): (s: Poly)
    requires Fits(g, r)
    ensures |s| == |r|
    ensures forall i | 0 <= i < |r| :: s[i] == ((i > 0 && r[i - 1]) != (g[i] && r[|r| - 1] != b))
  {
    var fb := r[|r| - 1] != b;
    seq(|r|, i requires 0 <= i < |r| => (i > 0 && r[i - 1]) != (g[i] && fb))
  }

  function Feed(g: Poly, r: Poly, bits: seq<bool>): (s: Poly)
    requires Fits(g, r)
    ensures |s| == |r|
  {
    if bits == [] then r
    else Step(g, Feed(g, r, bits[..|bits| - 1]), bits[|bits| - 1])
  }

  lemma {:induction false} FeedConcat(g: Poly, r: Poly, a: seq<bool>, b: seq<bool>)
    requires Fits(g, r)
    ensures Feed(g, r, a + b) == Feed(g, Feed(g, r, a), b)
  {
    if b == [] {
      assert a + b == a;
    } else {
      var m := |b| - 1;
      assert (a + b)[..|a + b| - 1] == a + b[..m];
      FeedConcat(g, r, a, b[..m]);
    }
  }

  // ---------------------------------------------------------------- division

  /** The message polynomial: the last bit sent is the constant term. */
  function Message(bits: seq<bool>): (p: Poly)
    ensures |p| == |bits|
  {
    if bits == [] then [] else [bits[|bits| - 1]] + Message(bits[..|bits| - 1])
  }

  /** The feedback bits, which form the quotient. */
  function Quotient(g: Poly, r: Poly, bits: seq<bool>): Poly
    requires Fits(g, r)
  {
    if bits == [] then []
    else
      var init := bits[..|bits| - 1];
      [Feed(g, r, init)[|r| - 1] != bits[|bits| - 1]] + Quotient(g, r, init)
  }

  lemma ShiftCoef(n: nat, m: Poly, b: bool, i: nat)
    ensures Coef(ShiftUp(n, [b] + m), i) == if i == n then b else i > 0 && Coef(ShiftUp(n, m), i - 1)
  {}

  lemma StepCoef(g: Poly, r: Poly, b: bool, i: nat)
    requires Fits(g, r)
    ensures Coef(Step(g, r, b), i) ==
            (i < |r| && ((i > 0 && Coef(r, i - 1)) != (Coef(g, i) && r[|r| - 1] != b)))
  {}

  /** One division step: if m x^n = q g + r then (m x + b) x^n = (q x + fb) g + Step(r, b). */
  lemma DivisionStep(g: Poly, q: Poly, r: Poly, m: Poly, b: bool, i: nat)
    requires Generator(g) && Fits(g, r)
    requires i > 0 ==> Coef(ShiftUp(|r|, m), i - 1) == (Coef(Times(q, g), i - 1) != Coef(r, i - 1))
    ensures var fb := r[|r| - 1] != b;
            Coef(ShiftUp(|r|, [b] + m), i) ==
            (Coef(Times([fb] + q, g), i) != Coef(Step(g, r, b), i))
  {
    var n := |r|;
    var fb := r[n - 1] != b;
    assert Coef(Times([fb] + q, g), i) == ((fb && Coef(g, i)) != (i > 0 && Coef(Times(q, g), i - 1))) by {
      assert ([fb] + q)[1..] == q;
      TimesCoef([fb] + q, g, i);
    }
    StepCoef(g, r, b, i);
    ShiftCoef(n, m, b, i);
  }

  /** message(x) x^n = quotient(x) g(x) + register(x), coefficient by coefficient. */
  lemma {:induction false} Division(g: Poly, bits: seq<bool>, i: nat)
    requires Generator(g)
    ensures var z := Zeros(|g| - 1);
            Coef(ShiftUp(|g| - 1, Message(bits)), i) ==
            (Coef(Times(Quotient(g, z, bits), g), i) != Coef(Feed(g, z, bits), i))
  {
    var z := Zeros(|g| - 1);
    if bits != [] {
      var init, b := bits[..|bits| - 1], bits[|bits| - 1];
      var q, r, m := Quotient(g, z, init), Feed(g, z, init), Message(init);
      if i > 0 { Division(g, init, i - 1); }
      DivisionStep(g, q, r, m, b, i);
      assert Quotient(g, z, bits) == [r[|r| - 1] != b] + q;
    }
  }

  lemma FeedIsRemainder(g: Poly, bits: seq<bool>)
    requires Generator(g)
    ensures IsRemainder(ShiftUp(|g| - 1, Message(bits)), g, Feed(g, Zeros(|g| - 1), bits))
  {
    var z := Zeros(|g| - 1);
    var q, r := Quotient(g, z, bits), Feed(g, z, bits);
    forall i: nat ensures Coef(ShiftUp(|g| - 1, Message(bits)), i) == Coef(Add(Times(q, g), r), i) {
      Division(g, bits, i);
    }
    assert SamePoly(ShiftUp(|g| - 1, Message(bits)), Add(Times(q, g), r));
  }

  /** The register is the remainder of message(x) x^n modulo g(x), and nothing else is. */
  lemma RegisterIffRemainder(g: Poly, bits: seq<bool>, r: Poly)
    requires Generator(g)
    ensures IsRemainder(ShiftUp(|g| - 1, Message(bits)), g, r) <==> r == Feed(g, Zeros(|g| - 1), bits)
  {
    FeedIsRemainder(g, bits);
    if IsRemainder(ShiftUp(|g| - 1, Message(bits)), g, r) {
      RemainderUnique(ShiftUp(|g| - 1, Message(bits)), g, r, Feed(g, Zeros(|g| - 1), bits));
    }
  }

  // ---------------------------------------------------------------- codewords

  /** The register's own bits in transmission order. */
  function Flush(r: Poly): (bits: seq<bool>)
    ensures |bits| == |r|
    ensures forall k | 0 <= k < |r| :: bits[k] == r[|r| - 1 - k]
  {
    seq(|r|, k requires 0 <= k < |r| => r[|r| - 1 - k])
  }

  lemma FlushTwice(r: Poly)
    ensures Flush(Flush(r)) == r
  {}

  lemma {:induction false} FlushPrefix(g: Poly, r: Poly, k: nat)
    requires Fits(g, r) && k <= |r|
    ensures forall i | 0 <= i < |r| :: Feed(g, r, Flush(r)[..k])[i] == (i >= k && r[i - k])
  {
    if k > 0 {
      FlushPrefix(g, r, k - 1);
      var sent := Flush(r)[..k];
      assert sent[..k - 1] == Flush(r)[..k - 1];
      var s := Feed(g, r, sent[..k - 1]);
      assert s[|r| - 1] == sent[k - 1];
      assert Feed(g, r, sent) == Step(g, s, sent[k - 1]);
    }
  }

  /** Sending the register after the data clears it: every data + check bits is a codeword. */
  lemma CodewordClears(g: Poly, r: Poly, data: seq<bool>)
    requires Fits(g, r)
    ensures Feed(g, r, data + Flush(Feed(g, r, data))) == Zeros(|r|)
  {
    var s := Feed(g, r, data);
    FeedConcat(g, r, data, Flush(s));
    FlushClears(g, s);
  }

  lemma FlushClears(g: Poly, r: Poly)
    requires Fits(g, r)
    ensures Feed(g, r, Flush(r)) == Zeros(|r|)
  {
    FlushPrefix(g, r, |r|);
    assert Flush(r)[..|r|] == Flush(r);
  }

  lemma TimesX(q: Poly, g: Poly, i: nat)
    ensures Coef(Times([false] + q, g), i) == (i > 0 && Coef(Times(q, g), i - 1))
  {
    assert ([false] + q)[1..] == q;
    TimesCoef([false] + q, g, i);
  }

  lemma {:induction false} TimesShift(n: nat, q: Poly, g: Poly, i: nat)
    ensures Coef(Times(ShiftUp(n, q), g), i) == (i >= n && Coef(Times(q, g), i - n))
  {
    if n == 0 {
      assert ShiftUp(0, q) == q;
    } else {
      assert ShiftUp(n, q) == [false] + ShiftUp(n - 1, q);
      TimesX(ShiftUp(n - 1, q), g, i);
      if i > 0 { TimesShift(n - 1, q, g, i - 1); }
    }
  }

  /** Since g[0] = 1, a multiple of g that x^n divides is x^n times a multiple of g. */
  lemma {:induction false} CancelShift(n: nat, m: Poly, q: Poly, g: Poly) returns (p: Poly)
    requires Generator(g) && SamePoly(ShiftUp(n, m), Times(q, g))
    ensures SamePoly(m, Times(p, g))
  {
    if n == 0 {
      assert ShiftUp(0, m) == m;
      p := q;
    } else if q == [] {
      p := [];
      forall i: nat ensures !Coef(m, i) { assert Coef(ShiftUp(n, m), n + i) == Coef(Times(q, g), n + i); }
    } else {
      TimesCoef(q, g, 0);
      assert Coef(ShiftUp(n, m), 0) == Coef(Times(q, g), 0);
      forall i: nat ensures Coef(ShiftUp(n - 1, m), i) == Coef(Times(q[1..], g), i) {
        TimesCoef(q, g, i + 1);
        assert Coef(ShiftUp(n, m), i + 1) == Coef(Times(q, g), i + 1);
      }
      p := CancelShift(n - 1, m, q[1..], g);
    }
  }

  ghost predicate Divides(g: Poly, m: Poly) {
    exists q: Poly :: SamePoly(m, Times(q, g))
  }

  lemma MultipleClears(g: Poly, bits: seq<bool>, q: Poly)
    requires Generator(g) && SamePoly(Message(bits), Times(q, g))
    ensures Feed(g, Zeros(|g| - 1), bits) == Zeros(|g| - 1)
  {
    var n := |g| - 1;
    var m, t, u := Message(bits), Times(q, g), Times(ShiftUp(n, q), g);
    forall i: nat ensures Coef(ShiftUp(n, m), i) == Coef(Add(u, Zeros(n)), i) {
      TimesShift(n, q, g, i);
      assert i >= n ==> Coef(m, i - n) == Coef(t, i - n);
    }
    assert SamePoly(ShiftUp(n, m), Add(u, Zeros(n)));
    RegisterIffRemainder(g, bits, Zeros(n));
  }

  lemma ClearIsMultiple(g: Poly, bits: seq<bool>)
    requires Generator(g) && Feed(g, Zeros(|g| - 1), bits) == Zeros(|g| - 1)
    ensures Divides(g, Message(bits))
  {
    var n := |g| - 1;
    var q := Quotient(g, Zeros(n), bits);
    forall i: nat ensures Coef(ShiftUp(n, Message(bits)), i) == Coef(Times(q, g), i) { Division(g, bits, i); }
    var p := CancelShift(n, Message(bits), q, g);
  }

  /** The words the register accepts are exactly the multiples of the generator. */
  lemma ZeroRegisterIffDivisible(g: Poly, bits: seq<bool>)
    requires Generator(g)
    ensures Feed(g, Zeros(|g| - 1), bits) == Zeros(|g| - 1) <==> Divides(g, Message(bits))
  {
    if Feed(g, Zeros(|g| - 1), bits) == Zeros(|g| - 1) {
      ClearIsMultiple(g, bits);
    }
    if Divides(g, Message(bits)) {
      var q: Poly :| SamePoly(Message(bits), Times(q, g));
      MultipleClears(g, bits, q);
    }
  }

  // ---------------------------------------------------------------- linearity and bursts

  function Xor(a: seq<bool>, b: seq<bool>): (c: seq<bool>)
    requires |a| == |b|
    ensures |c| == |a|
  {
    seq(|a|, i requires 0 <= i < |a| => a[i] != b[i])
  }

  lemma {:induction false} FeedLinear(g: Poly, r: Poly, s: Poly, a: seq<bool>, b: seq<bool>)
    requires Fits(g, r) && |r| == |s| && |a| == |b|
    ensures Feed(g, Xor(r, s), Xor(a, b)) == Xor(Feed(g, r, a), Feed(g, s, b))
  {
    if a != [] {
      var m := |a| - 1;
      assert Xor(a, b)[..m] == Xor(a[..m], b[..m]);
      FeedLinear(g, r, s, a[..m], b[..m]);
    }
  }

  /** With g[0] = 1 idle clocks lose nothing: a register that ends at zero started at zero. */
  lemma {:induction false} IdleInjective(g: Poly, r: Poly, n: nat)
    requires Fits(g, r) && Generator(g)
    requires Feed(g, r, Zeros(n)) == Zeros(|r|)
    ensures r == Zeros(|r|)
  {
    if n > 0 {
      assert Zeros(n)[..n - 1] == Zeros(n - 1);
      var s := Feed(g, r, Zeros(n - 1));
      var t := Step(g, s, false);
      assert t == Zeros(|r|);
      assert !t[0];
      forall i | 0 <= i < |s| ensures s[i] == Zeros(|r|)[i] {
        if i < |s| - 1 { assert !t[i + 1]; }
      }
      assert s == Zeros(|r|);
      IdleInjective(g, r, n - 1);
    }
  }

  /** From the zero register, w followed by nothing acts as idling from the register holding w. */
  lemma WindowAsState(g: Poly, w: Poly)
    requires Fits(g, w)
    ensures Feed(g, Zeros(|w|), Flush(w)) == Feed(g, w, Zeros(|w|))
  {
    var n := |w|;
    FlushClears(g, w);
    FeedLinear(g, w, w, Zeros(n), Flush(w));
    assert Xor(w, w) == Zeros(n);
    assert Xor(Zeros(n), Flush(w)) == Flush(w);
    assert Xor(Feed(g, w, Zeros(n)), Zeros(n)) == Feed(g, w, Zeros(n));
  }

  lemma ZeroRunClears(g: Poly, d: seq<bool>)
    requires |g| == |d| + 1 && Generator(g)
    requires Feed(g, Zeros(|d|), d) == Zeros(|d|)
    ensures d == Zeros(|d|)
  {
    var w := Flush(d);
    FlushTwice(d);
    WindowAsState(g, w);
    IdleInjective(g, w, |d|);
    FlushTwice(Zeros(|d|));
    assert Flush(Zeros(|d|)) == Zeros(|d|);
  }

  lemma XorZero(x: seq<bool>, y: seq<bool>)
    requires |x| == |y|
    ensures Xor(x, y) == Zeros(|x|) <==> x == y
  {
    if Xor(x, y) == Zeros(|x|) {
      forall k | 0 <= k < |x| ensures x[k] == y[k] { assert Xor(x, y)[k] == Zeros(|x|)[k]; }
    }
  }

  /** The only n bits that clear a register are its own. */
  lemma OnlyFlushClears(g: Poly, r: Poly, x: seq<bool>)
    requires Fits(g, r) && Generator(g) && |x| == |r|
    ensures Feed(g, r, x) == Zeros(|r|) <==> x == Flush(r)
  {
    FlushClears(g, r);
    if Feed(g, r, x) == Zeros(|r|) {
      FeedLinear(g, r, r, x, Flush(r));
      XorZero(r, r);
      XorZero(Zeros(|r|), Zeros(|r|));
      ZeroRunClears(g, Xor(x, Flush(r)));
      XorZero(x, Flush(r));
    }
  }

  lemma {:induction false} IdleZero(g: Poly, k: nat, n: nat)
    requires |g| == n + 1 && n >= 1
    ensures Feed(g, Zeros(n), Zeros(k)) == Zeros(n)
  {
    if k > 0 {
      assert Zeros(k)[..k - 1] == Zeros(k - 1);
      IdleZero(g, k - 1, n);
    }
  }

  /** An error pattern that is zero outside [at, at + n) and not zero altogether. */
  ghost predicate Burst(e: seq<bool>, at: nat, n: nat) {
    at + n <= |e| && (forall i | 0 <= i < |e| && e[i] :: at <= i < at + n) && exists i | 0 <= i < |e| :: e[i]
  }

  /** Feeding a word with silence around a window is feeding the window, then idling. */
  lemma FeedWindow(g: Poly, w: Poly, at: nat, tail: nat)
    requires Fits(g, w)
    ensures Feed(g, Zeros(|w|), Zeros(at) + (Flush(w) + Zeros(tail))) ==
            Feed(g, Feed(g, w, Zeros(|w|)), Zeros(tail))
  {
    var z := Zeros(|w|);
    FeedConcat(g, z, Zeros(at), Flush(w) + Zeros(tail));
    IdleZero(g, at, |w|);
    FeedConcat(g, z, Flush(w), Zeros(tail));
    WindowAsState(g, w);
  }

  lemma WindowSplit(e: seq<bool>, at: nat, n: nat)
    requires Burst(e, at, n)
    ensures e == Zeros(at) + (e[at..at + n] + Zeros(|e| - at - n))
  {}

  lemma WindowNonZero(g: Poly, w: Poly, at: nat, tail: nat)
    requires Fits(g, w) && Generator(g) && w != Zeros(|w|)
    ensures Feed(g, Zeros(|w|), Zeros(at) + (Flush(w) + Zeros(tail))) != Zeros(|w|)
  {
    FeedWindow(g, w, at, tail);
    var s := Feed(g, w, Zeros(|w|));
    if Feed(g, s, Zeros(tail)) == Zeros(|w|) {
      IdleInjective(g, s, tail);
      IdleInjective(g, w, |w|);
    }
  }

  lemma WindowOf(e: seq<bool>, at: nat, n: nat) returns (w: Poly)
    requires Burst(e, at, n)
    ensures |w| == n && w != Zeros(n) && Flush(w) == e[at..at + n]
  {
    w := Flush(e[at..at + n]);
    var i :| 0 <= i < |e| && e[i];
    assert w[n - 1 - (i - at)];
  }

  lemma BurstNonZero(g: Poly, e: seq<bool>, at: nat)
    requires Generator(g) && Burst(e, at, |g| - 1)
    ensures Feed(g, Zeros(|g| - 1), e) != Zeros(|g| - 1)
  {
    var n := |g| - 1;
    var w := WindowOf(e, at, n);
    WindowSplit(e, at, n);
    WindowNonZero(g, w, at, |e| - at - n);
  }

  /** Every burst of at most n bits turns a codeword into a non-codeword. */
  lemma BurstDetected(g: Poly, sent: seq<bool>, e: seq<bool>, at: nat)
    requires Generator(g) && |sent| == |e|
    requires Feed(g, Zeros(|g| - 1), sent) == Zeros(|g| - 1)
    requires Burst(e, at, |g| - 1)
    ensures Feed(g, Zeros(|g| - 1), Xor(sent, e)) != Zeros(|g| - 1)
  {
    var z := Zeros(|g| - 1);
    BurstNonZero(g, e, at);
    FeedLinear(g, z, z, sent, e);
    assert Xor(z, z) == z;
    assert Xor(z, Feed(g, z, e)) == Feed(g, z, e);
  }
}
