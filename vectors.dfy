/**
 * Element-wise vector arithmetic over real numbers: the operations the emission
 * calculation applies to its per-wavelength arrays (+=, *=, /= and sum()).
 */
module Vectors {

  type Vec = seq<real>

  function Zeros(n: nat): (v: Vec)
    ensures |v| == n && forall i :: 0 <= i < n ==> v[i] == 0.0
  {
    seq(n, i => 0.0)
  }

  function Add(a: Vec, b: Vec): (v: Vec)
    requires |a| == |b|
    ensures |v| == |a| && forall i :: 0 <= i < |a| ==> v[i] == a[i] + b[i]
  {
    seq(|a|, i requires 0 <= i < |a| => a[i] + b[i])
  }

  function Scale(a: Vec, c: real): (v: Vec)
    ensures |v| == |a| && forall i :: 0 <= i < |a| ==> v[i] == c * a[i]
  {
    seq(|a|, i requires 0 <= i < |a| => c * a[i])
  }

  function Mul(a: Vec, b: Vec): (v: Vec)
    requires |a| == |b|
    ensures |v| == |a| && forall i :: 0 <= i < |a| ==> v[i] == a[i] * b[i]
  {
    seq(|a|, i requires 0 <= i < |a| => a[i] * b[i])
  }

  /** The sum of the elements, accumulated from the front. */
  function Sum(a: Vec): real
  {
    if a == [] then 0.0 else Sum(a[..|a| - 1]) + a[|a| - 1]
  }

  /** Scaling a vector scales its sum. */
  lemma {:induction false} SumScale(a: Vec, c: real)
    ensures Sum(Scale(a, c)) == c * Sum(a)
  {
    if a != [] {
      var n := |a| - 1;
      var s := Scale(a, c);
      assert forall i :: 0 <= i < n ==> s[..n][i] == Scale(a[..n], c)[i];
      assert s[..n] == Scale(a[..n], c);
      SumScale(a[..n], c);
    }
  }

  /** The sum of the zero vector is zero. */
  lemma {:induction false} SumZeros(n: nat)
    ensures Sum(Zeros(n)) == 0.0
  {
    if n > 0 {
      assert Zeros(n)[..n - 1] == Zeros(n - 1);
      SumZeros(n - 1);
    }
  }

  /** The vector divided by its sum when that sum is positive, and left as it is otherwise. */
  function Normalised(a: Vec): (v: Vec)
    ensures |v| == |a|
    ensures Sum(a) > 0.0 ==> forall i :: 0 <= i < |a| ==> v[i] == a[i] / Sum(a)
    ensures Sum(a) <= 0.0 ==> v == a
  {
    var total := Sum(a);
    if total > 0.0 then Scale(a, 1.0 / total) else a
  }

  /** A normalised vector whose total was positive sums to one. */
  lemma NormalisedSumsToOne(a: Vec)
    requires Sum(a) > 0.0
    ensures Sum(Normalised(a)) == 1.0
  {
    SumScale(a, 1.0 / Sum(a));
  }
}
