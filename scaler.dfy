/**
 * `set_value_and_unit`: a byte count expressed in base-1024 units
 * (0 = bytes, 1 = KB, 2 = MB, ...). The source computes the unit as
 * floor(log(size) / log(1024)); this model uses its exact integer meaning,
 * the number of whole base-1024 steps in size, and keeps the value as the
 * exact rational size / 1024^unit.
 */
module UnitScaler {
  import opened Words

  /** A scaled value and its unit index (the `float *value`, `int *unit` pair). */
  datatype Scaled = Scaled(value: real, unit: nat)

  /** The defaults the caller stores before calling (main.c:249-252). */
  const Unset: Scaled := Scaled(0.0, 0)

  function Pow1024(i: nat): (p: nat)
    ensures p >= 1
  {
    if i == 0 then 1 else 1024 * Pow1024(i - 1)
  }

  /** Powers of 1024 grow strictly. */
  lemma {:induction false} Pow1024Grows(i: nat, j: nat)
    requires i < j
    ensures Pow1024(i + 1) <= Pow1024(j)
    decreases j
  {
    if j > i + 1 {
      Pow1024Grows(i, j - 1);
    }
  }

  /** The unit of a positive size: 1024^u <= size < 1024^(u+1). */
  function UnitOf(size: nat): (u: nat)
    requires size > 0
    ensures Pow1024(u) <= size < Pow1024(u + 1)
    decreases size
  {
    if size < 1024 then 0
    else
      var u := UnitOf(size / 1024);
      assert 1024 * Pow1024(u) <= 1024 * (size / 1024) <= size;
      assert size < 1024 * (size / 1024 + 1) <= 1024 * Pow1024(u + 1);
      1 + u
  }

  /** The unit is the only index whose power range holds size. */
  lemma UnitOfUnique(size: nat, i: nat)
    requires Pow1024(i) <= size < Pow1024(i + 1)
    ensures i == UnitOf(size)
  {
    var u := UnitOf(size);
    if i < u {
      Pow1024Grows(i, u);
    } else if u < i {
      Pow1024Grows(u, i);
    }
  }

  /** Powers of 1024 are monotone. */
  lemma Pow1024Mono(i: nat, j: nat)
    requires i <= j
    ensures Pow1024(i) <= Pow1024(j)
  {
    if i < j {
      Pow1024Grows(i, j);
    }
  }

  /** A size below 1024^k has a unit below k. */
  lemma UnitBelow(size: nat, k: nat)
    requires 0 < size < Pow1024(k)
    ensures UnitOf(size) < k
  {
    var u := UnitOf(size);
    if k <= u {
      Pow1024Mono(k, u);
    }
  }

  /** A positive `int` (below 2^31) never reaches unit 4 (TB). */
  lemma UnitOfInt32(size: nat)
    requires 0 < size < TWO_31
    ensures UnitOf(size) <= 3
  {
    assert Pow1024(4) == 0x100_0000_0000;
    UnitBelow(size, 4);
  }

  lemma NegativeFactor(x: real, p: real)
    requires p > 0.0 && x * p < 0.0
    ensures x < 0.0
  {
  }

  /** Dividing by p a value in [p, 1024 p) gives a value in [1, 1024). */
  lemma QuotientRange(s: real, p: real)
    requires p > 0.0 && p <= s < 1024.0 * p
    ensures 1.0 <= s / p < 1024.0
    ensures (s / p) * p == s
  {
    var v := s / p;
    assert v * p == s;
    assert (v - 1024.0) * p == s - 1024.0 * p < 0.0;
    NegativeFactor(v - 1024.0, p);
  }

  /**
   * `set_value_and_unit(size, &value, &unit)` applied to the caller's
   * current pair: a zero size writes nothing.
   */
  function SetValueAndUnit(size: nat, prior: Scaled): (r: Scaled)
    ensures size == 0 ==> r == prior
    ensures size > 0 ==> Pow1024(r.unit) <= size < Pow1024(r.unit + 1)
    ensures size > 0 ==> r.value * (Pow1024(r.unit) as real) == size as real
    ensures size > 0 ==> 1.0 <= r.value < 1024.0
  {
    if size == 0 then prior
    else
      var u := UnitOf(size);
      var p := Pow1024(u) as real;
      assert Pow1024(u + 1) == 1024 * Pow1024(u);
      QuotientRange(size as real, p);
      Scaled(size as real / p, u)
  }
}
