/** Capacity and load-factor arithmetic of `HashTable`. The Java `float`
    load factor is modelled as an exact real number. */
module Sizing {

  const MinimalDataSize: int := 7
  const MinimalLoadFactor: real := 0.2
  const MaximumLoadFactor: real := 1.0
  const DefaultDataSize: int := 127
  const DefaultLoadFactor: real := 0.5

  /** The load factors the constructors accept: strictly between 0.2 and 1.0. */
  predicate ValidLoadFactor(lf: real)
  {
    MinimalLoadFactor < lf < MaximumLoadFactor
  }

  /** `Math.ceil`, written with the built-in floor. */
  function Ceil(x: real): (c: int)
    ensures x <= c as real < x + 1.0
  {
    -((-x).Floor)
  }

  /** `(int) (length * loadFactor)`: the product is non-negative, so the
      cast's truncation is the floor. */
  function Threshold(n: nat, lf: real): (t: int)
    requires n >= MinimalDataSize && ValidLoadFactor(lf)
    ensures t as real <= n as real * lf < t as real + 1.0
    ensures 1 <= t < n
  {
    (n as real * lf).Floor
  }

  /** The factor `resize` multiplies the capacity by: `ceil(1/loadFactor + 0.1)`.
      It is at least 2, and it times the load factor exceeds 1. */
  function GrowthFactor(lf: real): (g: int)
    requires ValidLoadFactor(lf)
    ensures 2 <= g <= 6
    ensures Times(g as real, lf) > 1.0
  {
    var c := Ceil(1.0 / lf + 0.1);
    CeilScaledAboveOne(lf, c);
    c
  }

  lemma CeilScaledAboveOne(lf: real, c: int)
    requires ValidLoadFactor(lf) && c == Ceil(1.0 / lf + 0.1)
    ensures 2 <= c <= 6
    ensures Times(c as real, lf) > 1.0
  {
  }

  /** Real multiplication under a name: the solver keeps products it meets
      through this function as plain terms, which keeps the steps below linear. */
  function Times(a: real, b: real): real
  {
    a * b
  }

  lemma TimesAssoc(x: real, y: real, z: real)
    ensures (x * y) * z == x * (y * z)
  {
  }

  lemma CastTimes(a: int, b: int)
    ensures (a * b) as real == a as real * b as real
  {
  }

  lemma ScaledAtLeast(p: real, nr: real, gr: real, lf: real)
    requires nr >= 0.0 && Times(gr, lf) > 1.0 && p == nr * gr
    ensures p * lf >= nr
  {
    var a := gr * lf;
    assert a == Times(gr, lf);
    TimesAssoc(nr, gr, lf);
    var b := nr * a;
    assert p * lf == b;
    var e := a - 1.0;
    assert nr * e >= 0.0;
    assert b == nr + nr * e;
  }

  /** After growth the new threshold is at least the old capacity, so it is
      above any size the old table can hold. */
  lemma GrownThresholdCoversCapacity(n: nat, lf: real)
    requires n >= MinimalDataSize && ValidLoadFactor(lf)
    ensures n * GrowthFactor(lf) >= 2 * n
    ensures Threshold(n * GrowthFactor(lf), lf) >= n
  {
    var g := GrowthFactor(lf);
    CastTimes(n, g);
    ScaledAtLeast((n * g) as real, n as real, g as real, lf);
  }
}
