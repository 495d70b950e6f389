/**
 The cartesian product of a list of factors, as a list of choices (one element
 per factor), written independently of how the application produces its
 strings. It is the reference the generator is proved against.
 */
module Cartesian {

  /** `c` picks one element of each factor, in factor order. */
  predicate IsChoice<T(==)>(c: seq<T>, factors: seq<seq<T>>) {
    |c| == |factors| && forall i :: 0 <= i < |c| ==> c[i] in factors[i]
  }

  /** Some factor has no elements. */
  predicate HasEmptyFactor<T>(factors: seq<seq<T>>) {
    exists i :: 0 <= i < |factors| && |factors[i]| == 0
  }

  /** The product of the factor sizes. */
  function LengthProduct<T>(factors: seq<seq<T>>): nat {
    if |factors| == 0 then 1 else |factors[0]| * LengthProduct(factors[1..])
  }

  /** Every tail with `x` put in front. */
  function PrependAll<T>(x: T, tails: seq<seq<T>>): (r: seq<seq<T>>)
    ensures |r| == |tails|
    ensures forall j :: 0 <= j < |tails| ==> r[j] == [x] + tails[j]
  {
    seq(|tails|, j requires 0 <= j < |tails| => [x] + tails[j])
  }

  /** For each element of `xs` in turn, every tail with that element in front. */
  function ProductEach<T>(xs: seq<T>, tails: seq<seq<T>>): (r: seq<seq<T>>)
    ensures |r| == |xs| * |tails|
  {
    if |xs| == 0 then []
    else
      assert |xs| * |tails| == |tails| + (|xs| - 1) * |tails|;
      PrependAll(xs[0], tails) + ProductEach(xs[1..], tails)
  }

  /** All choices, the first factor outermost. */
  function Product<T>(factors: seq<seq<T>>): (r: seq<seq<T>>)
    ensures |r| == LengthProduct(factors)
  {
    if |factors| == 0 then [[]] else ProductEach(factors[0], Product(factors[1..]))
  }

  /** Index `j` of block `i`, blocks of `n`, lies inside `m` blocks. */
  lemma BlockIndexInRange(i: nat, j: nat, n: nat, m: nat)
    requires i < m && j < n
    ensures i * n + j < m * n
  {
    assert (i + 1) * n == i * n + n;
    assert (i + 1) * n <= m * n;
  }

  /** Block `i` of the product holds the `i`-th element in front of every
      tail, in the tails' order. */
  lemma {:induction false} ProductEachIndex<T>(xs: seq<T>, tails: seq<seq<T>>, i: nat, j: nat)
    requires i < |xs| && j < |tails|
    ensures i * |tails| + j < |xs| * |tails|
    ensures ProductEach(xs, tails)[i * |tails| + j] == [xs[i]] + tails[j]
  {
    BlockIndexInRange(i, j, |tails|, |xs|);
    var r := ProductEach(xs, tails);
    var front := PrependAll(xs[0], tails);
    assert r == front + ProductEach(xs[1..], tails);
    if i > 0 {
      ProductEachIndex(xs[1..], tails, i - 1, j);
      var k := (i - 1) * |tails| + j;
      assert i * |tails| + j == |tails| + k;
      assert r[|front| + k] == ProductEach(xs[1..], tails)[k];
    }
  }

  /** Odometer order: the first factor varies slowest. The choice at index
      `i * |tails| + j` takes the `i`-th element of the first factor followed
      by the `j`-th choice over the remaining factors. */
  lemma ProductOdometer<T>(factors: seq<seq<T>>, i: nat, j: nat)
    requires |factors| > 0 && i < |factors[0]| && j < LengthProduct(factors[1..])
    ensures i * LengthProduct(factors[1..]) + j < LengthProduct(factors)
    ensures Product(factors)[i * LengthProduct(factors[1..]) + j]
         == [factors[0][i]] + Product(factors[1..])[j]
  {
    ProductEachIndex(factors[0], Product(factors[1..]), i, j);
  }

  /** A sequence is in `ProductEach` exactly when its head is one of `xs` and
      its tail one of `tails`. */
  lemma {:induction false} ProductEachMembership<T>(xs: seq<T>, tails: seq<seq<T>>, c: seq<T>)
    ensures c in ProductEach(xs, tails) <==> |c| > 0 && c[0] in xs && c[1..] in tails
  {
    if |xs| > 0 {
      ProductEachMembership(xs[1..], tails, c);
      if |c| > 0 && c[1..] in tails {
        assert c == [c[0]] + c[1..];
        if c[0] == xs[0] {
          var j :| 0 <= j < |tails| && tails[j] == c[1..];
          assert PrependAll(xs[0], tails)[j] == c;
        }
      }
      if c in PrependAll(xs[0], tails) {
        var j :| 0 <= j < |tails| && PrependAll(xs[0], tails)[j] == c;
        assert c[1..] == tails[j];
      }
      assert xs == [xs[0]] + xs[1..];
    }
  }

  /** The product holds exactly the choices. */
  lemma {:induction false} ProductMembership<T>(factors: seq<seq<T>>, c: seq<T>)
    ensures c in Product(factors) <==> IsChoice(c, factors)
  {
    if |factors| > 0 {
      ProductEachMembership(factors[0], Product(factors[1..]), c);
      if |c| > 0 {
        ProductMembership(factors[1..], c[1..]);
        if IsChoice(c, factors) {
          assert forall i :: 0 <= i < |c| - 1 ==> c[1..][i] == c[i + 1];
        }
        if IsChoice(c[1..], factors[1..]) && c[0] in factors[0] {
          forall i | 0 <= i < |c|
            ensures c[i] in factors[i]
          {
            if i > 0 {
              assert c[1..][i - 1] == c[i];
            }
          }
        }
      }
    }
  }

  /** The product is empty exactly when some factor is empty. */
  lemma {:induction false} LengthProductZero<T>(factors: seq<seq<T>>)
    ensures LengthProduct(factors) == 0 <==> HasEmptyFactor(factors)
  {
    if |factors| > 0 {
      LengthProductZero(factors[1..]);
      if HasEmptyFactor(factors[1..]) {
        var i :| 0 <= i < |factors[1..]| && |factors[1..][i]| == 0;
        assert |factors[i + 1]| == 0;
      }
      if HasEmptyFactor(factors) && |factors[0]| > 0 {
        var i :| 0 <= i < |factors| && |factors[i]| == 0;
        assert |factors[1..][i - 1]| == 0;
      }
    }
  }
}
