/**
 * Prefix sums, and sums that do not depend on the order of a listing. A listing names some of the
 * entries of a table, each once; its total and that of the entries it leaves out make up the total
 * of the table, so that sizes can be added up in whatever order the code visits them.
 */
module Sums {
  function SumTo(s: seq<nat>, n: nat): (r: nat)
    requires n <= |s|
  {
    if n == 0 then 0 else SumTo(s, n - 1) + s[n - 1]
  }

  function Total(s: seq<nat>): nat {
    SumTo(s, |s|)
  }

  lemma {:induction false} SumMonotone(s: seq<nat>, m: nat, n: nat)
    requires m <= n <= |s|
    ensures SumTo(s, m) <= SumTo(s, n)
    ensures m < n ==> SumTo(s, m) + s[m] <= SumTo(s, n)
  {
    if m < n { SumMonotone(s, m, n - 1); }
  }

  lemma {:induction false} SumUpdate(s: seq<nat>, x: nat, v: nat, n: nat)
    requires x < |s| && n <= |s|
    ensures SumTo(s[x := v], n) + (if x < n then s[x] else 0) == SumTo(s, n) + (if x < n then v else 0)
  {
    if n > 0 { SumUpdate(s, x, v, n - 1); }
  }

  lemma {:induction false} SumZero(s: seq<nat>, n: nat)
    requires n <= |s| && forall i | 0 <= i < n :: s[i] == 0
    ensures SumTo(s, n) == 0
  {
    if n > 0 { SumZero(s, n - 1); }
  }

  /** Fewer than 64 values below 2^58 stay below 2^64. */
  lemma {:induction false} SumBelow(s: seq<nat>, n: nat)
    requires n <= |s| && forall i | 0 <= i < n :: s[i] < 0x400_0000_0000_0000
    ensures SumTo(s, n) <= 0x400_0000_0000_0000 * n
  {
    if n > 0 { SumBelow(s, n - 1); }
  }

  lemma {:induction false} SumSame(s: seq<nat>, t: seq<nat>, n: nat)
    requires n <= |s| && n <= |t| && forall i | 0 <= i < n :: s[i] == t[i]
    ensures SumTo(s, n) == SumTo(t, n)
  {
    if n > 0 { SumSame(s, t, n - 1); }
  }

  ghost predicate Bounded(order: seq<nat>, n: nat) {
    forall i | 0 <= i < |order| :: order[i] < n
  }

  /** The values a listing of indices visits, in its order. */
  function Pick(values: seq<nat>, order: seq<nat>): (p: seq<nat>)
    requires Bounded(order, |values|)
    ensures |p| == |order| && forall i | 0 <= i < |order| :: p[i] == values[order[i]]
  {
    seq(|order|, i requires 0 <= i < |order| => values[order[i]])
  }

  ghost predicate Lists(order: seq<nat>, n: nat) {
    && Bounded(order, n)
    && (forall i, j | 0 <= i < j < |order| :: order[i] != order[j])
  }

  /** A listing without repetition is no longer than the table. */
  lemma {:induction false} ListedLength(order: seq<nat>, n: nat)
    requires Lists(order, n)
    ensures |order| <= n
  {
    if order == [] {
      return;
    }
    assert order[0] < n;
    if k :| 0 <= k < |order| && order[k] == n - 1 {
      ListedLength(order[..k] + order[k + 1..], n - 1);
    } else {
      ListedLength(order, n - 1);
    }
  }

  lemma NotInPrefix(order: seq<nat>, e: nat)
    requires order != [] && e !in order[..|order| - 1] && e != order[|order| - 1]
    ensures e !in order
  {
    assert order == order[..|order| - 1] + [order[|order| - 1]];
  }

  /** A listing without repetition that misses only zeros has the same total as the table. */
  lemma {:induction false} ListedTotal(values: seq<nat>, order: seq<nat>)
    requires Lists(order, |values|)
    requires forall e | 0 <= e < |values| && e !in order :: values[e] == 0
    ensures Total(Pick(values, order)) == Total(values)
    decreases |order|
  {
    if order == [] {
      SumZero(values, |values|);
    } else {
      var k := |order| - 1;
      var x, init := order[k], order[..k];
      var rest := values[x := 0];
      forall e | 0 <= e < |rest| && e !in init ensures rest[e] == 0 {
        if e != x { NotInPrefix(order, e); }
      }
      ListedTotal(rest, init);
      SumUpdate(values, x, 0, |values|);
      SumSame(Pick(values, order), Pick(rest, init), k);
    }
  }

  lemma TotalSnoc(values: seq<nat>, s: seq<nat>, x: nat)
    requires Bounded(s + [x], |values|) && x < |values|
    ensures Bounded(s, |values|) && Total(Pick(values, s + [x])) == Total(Pick(values, s)) + values[x]
  {
    forall i | 0 <= i < |s| ensures s[i] < |values| { assert (s + [x])[i] == s[i]; }
    SumSame(Pick(values, s + [x]), Pick(values, s), |s|);
  }

  lemma {:induction false} PickConcat(values: seq<nat>, a: seq<nat>, b: seq<nat>)
    requires Bounded(a + b, |values|)
    ensures Bounded(a, |values|) && Bounded(b, |values|)
    ensures Total(Pick(values, a + b)) == Total(Pick(values, a)) + Total(Pick(values, b))
    decreases |b|
  {
    if b == [] {
      assert a + b == a;
    } else {
      var init, x := b[..|b| - 1], b[|b| - 1];
      assert b == init + [x] && a + b == (a + init) + [x];
      assert (a + b)[|a + b| - 1] == x;
      TotalSnoc(values, a + init, x);
      PickConcat(values, a, init);
      TotalSnoc(values, init, x);
    }
  }

  /** The table without the listed entries. */
  function Unlisted(values: seq<nat>, order: seq<nat>): (s: seq<nat>)
    ensures |s| == |values| && forall e | 0 <= e < |s| :: s[e] == if e in order then 0 else values[e]
  {
    seq(|values|, e requires 0 <= e < |values| => if e in order then 0 else values[e])
  }

  /** Listed and unlisted entries together are the whole table. */
  lemma {:induction false} ListedAndRest(values: seq<nat>, order: seq<nat>)
    requires Lists(order, |values|)
    ensures Total(values) == Total(Pick(values, order)) + Total(Unlisted(values, order))
    decreases |order|
  {
    if order == [] {
      SumSame(values, Unlisted(values, order), |values|);
    } else {
      var k := |order| - 1;
      var x, init := order[k], order[..k];
      var rest := values[x := 0];
      ListedAndRest(rest, init);
      SumUpdate(values, x, 0, |values|);
      SumSame(Pick(values, order), Pick(rest, init), k);
      UnlistedLast(values, order);
    }
  }

  lemma UnlistedLast(values: seq<nat>, order: seq<nat>)
    requires Lists(order, |values|) && order != []
    ensures Unlisted(values[order[|order| - 1] := 0], order[..|order| - 1]) == Unlisted(values, order)
  {
    var k := |order| - 1;
    forall e | 0 <= e < |values| ensures Unlisted(values[order[k] := 0], order[..k])[e] == Unlisted(values, order)[e] {
      if e !in order[..k] && e != order[k] { NotInPrefix(order, e); }
    }
  }
}
