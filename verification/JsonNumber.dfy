/**
 The integers that picojson/picojson.h can hold: a number is a double, which has 53 bits of precision.
 */
module JsonNumber {
  /** 2 to the 53rd. */
  const PRECISION: nat := 0x20_0000_0000_0000

  /** The largest finite double is (PRECISION - 1) * 2 to this power. */
  const MAX_SHIFT: nat := 971

  function Pow2(k: nat): (r: nat)
    ensures r > 0
  {
    if k == 0 then 1 else 2 * Pow2(k - 1)
  }

  /** After at most k halvings without a remainder, 53 bits are enough. */
  predicate Fits(a: nat, k: nat)
    decreases a
  {
    a < PRECISION || (k > 0 && a % 2 == 0 && Fits(a / 2, k - 1))
  }

  function Magnitude(n: int): (a: nat) { if n < 0 then -n else n }

  /** A double holds exactly this integer. */
  predicate IsDouble(n: int) {
    Fits(Magnitude(n), MAX_SHIFT)
  }

  predicate IsScaled(a: nat, m: nat, j: nat) {
    a == m * Pow2(j)
  }

  lemma {:induction false} ScaledFits(a: nat, m: nat, j: nat, k: nat)
    requires IsScaled(a, m, j) && m < PRECISION && j <= k
    ensures Fits(a, k)
    decreases k
  {
    if a >= PRECISION {
      assert j > 0;
      var half := m * Pow2(j - 1);
      Doubled(m, Pow2(j - 1));
      assert a == 2 * half;
      assert a % 2 == 0 && a / 2 == half;
      ScaledFits(half, m, j - 1, k - 1);
    }
  }

  lemma Doubled(m: nat, p: nat)
    ensures m * (2 * p) == 2 * (m * p)
  {
  }

  lemma {:induction false} FitsScaled(a: nat, k: nat) returns (m: nat, j: nat)
    requires Fits(a, k)
    ensures m < PRECISION && j <= k && IsScaled(a, m, j)
    decreases k
  {
    if a < PRECISION {
      m, j := a, 0;
    } else {
      m, j := FitsScaled(a / 2, k - 1);
      Doubled(m, Pow2(j));
      assert Pow2(j + 1) == 2 * Pow2(j);
      assert a == 2 * (a / 2);
      j := j + 1;
    }
  }

  /** What that means: the integers that doubles hold are those of the form m * 2^j with m of 53 bits and
      j in the range of the exponent. */
  lemma IsDoubleMeans(n: int)
    ensures IsDouble(n) <==>
            exists m: nat, j: nat :: m < PRECISION && j <= MAX_SHIFT && IsScaled(Magnitude(n), m, j)
  {
    var a := Magnitude(n);
    hide IsScaled, Fits;
    if Fits(a, MAX_SHIFT) {
      var m, j := FitsScaled(a, MAX_SHIFT);
    }
    forall m: nat, j: nat | m < PRECISION && j <= MAX_SHIFT && IsScaled(a, m, j)
      ensures Fits(a, MAX_SHIFT)
    {
      ScaledFits(a, m, j, MAX_SHIFT);
    }
  }

  /** The first integer that no double holds. */
  lemma FirstInexact()
    ensures !IsDouble(PRECISION + 1)
    ensures forall n: int :: Magnitude(n) <= PRECISION ==> IsDouble(n)
  {
    assert (PRECISION + 1) % 2 == 1;
    assert Fits(PRECISION / 2, MAX_SHIFT - 1);
  }
}
