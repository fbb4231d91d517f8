/** The remainder and the square root read the words of a double alike. */
module Doubles {
  import opened Powers
  import opened MachineWords
  import Fmod
  import Sqrt

  lemma RealProduct(x: nat, y: nat)
    ensures (x * y) as real == x as real * y as real
  {
  }

  lemma UnitsProduct(hi: Word, lo: Word)
    requires 0x10_0000 <= hi < 0x7ff0_0000
    ensures Fmod.Units(hi, lo) == Sqrt.Significand(hi, lo) * Pow2(hi / 0x10_0000 - 1)
  {
    hide Pow2;
  }

  /** The units of a normal number are its value in units of 2 to the power of -1074. */
  lemma UnitsValue(hi: Word, lo: Word)
    requires 0x10_0000 <= hi < 0x7ff0_0000
    ensures Fmod.Units(hi, lo) as real * Sqrt.Power(-1074) == Sqrt.Value(hi, lo)
  {
    hide Pow2, Fmod.Units, Sqrt.Power, Sqrt.Significand;
    var m, e: nat := Sqrt.Significand(hi, lo), hi / 0x10_0000 - 1;
    Sqrt.PowerWhole(e);
    Sqrt.PowerAdd(-1074, e);
    UnitsProduct(hi, lo);
    RealProduct(m, Pow2(e));
    Sqrt.Regroup(m as real, Sqrt.Power(-1074), Sqrt.Power(e));
    assert Sqrt.Exponent(hi) - 52 == -1074 + e;
  }
}
