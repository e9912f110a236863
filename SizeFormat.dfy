/** format_size: the unit a file size is shown in. The amount is kept as an exact
    real; its "%.1f" rendering is not modelled. */
module SizeFormat {

  datatype Unit = B | KB | MB | GB | TB

  /** The units format_size tries in order; TB is the fallback. */
  const Units: seq<Unit> := [B, KB, MB, GB]

  /** A size as shown in the listing: an amount and its unit. */
  datatype SizeLabel = SizeLabel(amount: real, unit: Unit)

  function Pow1024(k: nat): (p: nat)
    ensures p >= 1
  {
    if k == 0 then 1 else 1024 * Pow1024(k - 1)
  }

  /** The threshold of unit index k: a size under it is shown in that unit or a
      smaller one. */
  function Threshold(k: nat): nat {
    Pow1024(k + 1)
  }

  lemma {:induction false} Pow1024Monotone(i: nat, j: nat)
    requires i <= j
    ensures Pow1024(i) <= Pow1024(j)
  {
    if i < j {
      Pow1024Monotone(i, j - 1);
    }
  }

  /** The power of 1024 a unit stands for: 0 for B up to 4 for TB. */
  function Scale(u: Unit): (k: nat)
    ensures k <= 4
  {
    match u
    case B => 0
    case KB => 1
    case MB => 2
    case GB => 3
    case TB => 4
  }

  function UnitAt(k: nat): (u: Unit)
    requires k <= 4
    ensures Scale(u) == k
  {
    if k < 4 then Units[k] else TB
  }

  /** The unit index chosen when the units before k have been passed over: the least
      index from k on whose threshold 1024^(index+1) the size is under, or 4 (TB). */
  function UnitIndexFrom(size: nat, k: nat): (r: nat)
    requires k <= 4
    requires forall j :: 0 <= j < k ==> size >= Threshold(j)
    ensures k <= r <= 4
    ensures r < 4 ==> size < Threshold(r)
    ensures forall j :: 0 <= j < r ==> size >= Threshold(j)
    decreases 4 - k
  {
    if k == 4 || size < Threshold(k) then k else UnitIndexFrom(size, k + 1)
  }

  function UnitIndex(size: nat): nat {
    UnitIndexFrom(size, 0)
  }

  /** x / p < c exactly when x < c * p, for a positive p. */
  lemma DivLess(x: real, p: real, c: real)
    requires p > 0.0
    ensures x / p < c <==> x < c * p
  {
    assert x == (x / p) * p;
    if x / p < c {
      assert (x / p) * p < c * p;
    }
  }

  lemma DivMul(x: real, p: real)
    requires p > 0.0
    ensures (x / p) * p == x
  {
  }

  lemma MulDiv(a: real, p: real, x: real)
    requires p > 0.0 && a * p == x
    ensures a == x / p
  {
  }

  /** An amount that is the size scaled down by p is under 1024 exactly when the
      size is under 1024 * p, and at least 1 exactly when the size is at least p. */
  lemma ScaledBounds(a: real, p: nat, size: nat)
    requires p > 0 && a * (p as real) == size as real
    ensures a == size as real / p as real
    ensures a < 1024.0 <==> size < 1024 * p
    ensures a >= 1.0 <==> size >= p
  {
    MulDiv(a, p as real, size as real);
    assert (1024 * p) as real == 1024.0 * (p as real);
    DivLess(size as real, p as real, 1024.0);
    DivLess(size as real, p as real, 1.0);
  }

  /** Dividing by p and then by 1024 is dividing by 1024 * p. */
  lemma DivTwice(x: real, p: nat)
    requires p > 0
    ensures x / (p as real) / 1024.0 == x / ((1024 * p) as real)
  {
    assert (1024 * p) as real == 1024.0 * (p as real);
  }

  /** What format_size shows for a size in bytes. */
  function SizeLabelOf(size: nat): (l: SizeLabel)
    ensures l.amount * (Pow1024(Scale(l.unit)) as real) == size as real
    ensures l.unit != TB ==> l.amount < 1024.0
    ensures l.unit != B ==> l.amount >= 1.0
  {
    var k := UnitIndex(size);
    var p := Pow1024(k);
    var amount := size as real / p as real;
    DivMul(size as real, p as real);
    assert k < 4 ==> amount < 1024.0 by {
      if k < 4 {
        assert size < 1024 * p;
        assert (1024 * p) as real == 1024.0 * (p as real);
        DivLess(size as real, p as real, 1024.0);
      }
    }
    assert k > 0 ==> amount >= 1.0 by {
      if k > 0 {
        assert size >= Threshold(k - 1);
        DivLess(size as real, p as real, 1.0);
      }
    }
    SizeLabel(amount, UnitAt(k))
  }

  /** A unit index whose threshold the size is under, while it is at least the
      previous threshold, is the one format_size picks. */
  lemma UnitIndexUnique(size: nat, u: nat)
    requires u <= 4
    requires u < 4 ==> size < Threshold(u)
    requires u > 0 ==> size >= Threshold(u - 1)
    ensures UnitIndex(size) == u
  {
    var k := UnitIndex(size);
    if k < u {
      Pow1024Monotone(k + 1, u);
    }
  }

  /** The label is the only one whose amount times its unit is the size and whose
      amount lies in [1, 1024), the bound dropped below for B and above for TB. */
  lemma LabelDeterminedByRange(size: nat, l: SizeLabel)
    requires l.amount * (Pow1024(Scale(l.unit)) as real) == size as real
    requires l.unit != TB ==> l.amount < 1024.0
    requires l.unit != B ==> l.amount >= 1.0
    ensures l == SizeLabelOf(size)
  {
    var u := Scale(l.unit);
    ScaledBounds(l.amount, Pow1024(u), size);
    UnitIndexUnique(size, u);
    assert l.unit == UnitAt(u);
  }

  /** One round of format_size's loop: the amount for unit k is under 1024 exactly
      when the size is under that unit's threshold, and dividing it by 1024 gives
      the amount for unit k + 1. */
  lemma ScaleStep(size: nat, k: nat, amount: real)
    requires amount == size as real / Pow1024(k) as real
    ensures amount < 1024.0 <==> size < Threshold(k)
    ensures amount / 1024.0 == size as real / Pow1024(k + 1) as real
  {
    var p := Pow1024(k);
    DivMul(size as real, p as real);
    ScaledBounds(amount, p, size);
    DivTwice(size as real, p);
  }

  /** format_size as the server runs it: divide by 1024 until the amount is under
      1024 or the units run out. */
  method FormatSize(size: nat) returns (shown: SizeLabel)
    ensures shown == SizeLabelOf(size)
  {
    var amount := size as real;
    for k := 0 to |Units|
      invariant amount == size as real / Pow1024(k) as real
      invariant forall j :: 0 <= j < k ==> size >= Threshold(j)
    {
      ScaleStep(size, k, amount);
      if amount < 1024.0 {
        UnitIndexUnique(size, k);
        return SizeLabel(amount, Units[k]);
      }
      amount := amount / 1024.0;
    }
    UnitIndexUnique(size, 4);
    return SizeLabel(amount, TB);
  }
}
