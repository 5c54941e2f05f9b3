/** The legacy 24-bit LED mask and its expansion into 18 brightness bytes.

    Each of the 18 lights is driven by one bit of the mask; the bits are taken
    in a fixed, non-sequential order. Bits 0-5 and 24-31 drive nothing. This
    module holds the table-driven reference definition that both the HID
    encoder and the debug sink are proved to agree with. */
module LedBits {
  import opened Types

  const LightCount: nat := 18

  /** The mask bit behind each light, in output order: the reference table
      against which each driver's own copy is checked. */
  const LightBits: seq<nat> := [23, 19, 22, 20, 21, 18, 17, 16, 15, 14, 13, 12, 11, 10, 9, 8, 7, 6]

  /** The bits of the mask that drive some light: bits 6 to 23. */
  const UsedBits: bv32 := 0x00FF_FFC0

  predicate BitSet(data: bv32, bit: nat)
    requires bit < 32
  {
    (data >> bit) & 1 == 1
  }

  function Brightness(on: bool): u8
  {
    if on then 255 else 0
  }

  /** The byte for one light as the drivers compute it: the mask bit scaled by 255. */
  function Light(data: bv32, bit: nat): u8
    requires bit < 32
  {
    (((data >> bit) & 1) * 255) as u8
  }

  /** A light's byte is 255 exactly when its bit is set, and 0 otherwise. */
  lemma LightIsBrightness(data: bv32, bit: nat)
    requires bit < 32
    ensures Light(data, bit) == Brightness(BitSet(data, bit))
  {
  }

  /** Reference expansion: one byte per light, in table order. */
  function Expand(data: bv32): (p: seq<u8>)
    ensures |p| == LightCount
  {
    seq(LightCount, k requires 0 <= k < LightCount => Light(data, LightBits[k]))
  }

  /** The table names every bit from 6 to 23 exactly once. */
  lemma LightBitsArePermutation()
    ensures forall k :: 0 <= k < LightCount ==> 6 <= LightBits[k] <= 23
    ensures forall j, k :: 0 <= j < k < LightCount ==> LightBits[j] != LightBits[k]
    ensures forall b :: 6 <= b <= 23 ==> b in LightBits
  {
  }

  /** Every expanded byte is either off or at full brightness. */
  lemma ExpandIsOnOff(data: bv32)
    ensures forall k :: 0 <= k < LightCount ==> Expand(data)[k] in {0, 255}
  {
  }

  /** Two masks light the same lights exactly when they agree on bits 6-23:
      bits 0-5 and 24-31 never reach the lights, and each of the others does. */
  lemma ExpandDeterminesUsedBits(data1: bv32, data2: bv32)
    ensures Expand(data1) == Expand(data2) <==> data1 & UsedBits == data2 & UsedBits
  {
    if Expand(data1) == Expand(data2) {
      SameExpansionSameBits(data1, data2);
    }
    if data1 & UsedBits == data2 & UsedBits {
      SameBitsSameExpansion(data1, data2);
    }
  }

  lemma SameExpansionSameBits(data1: bv32, data2: bv32)
    requires Expand(data1) == Expand(data2)
    ensures data1 & UsedBits == data2 & UsedBits
  {
    LightAgrees(data1, data2, 0);
    LightAgrees(data1, data2, 1);
    LightAgrees(data1, data2, 2);
    LightAgrees(data1, data2, 3);
    LightAgrees(data1, data2, 4);
    LightAgrees(data1, data2, 5);
    LightAgrees(data1, data2, 6);
    LightAgrees(data1, data2, 7);
    LightAgrees(data1, data2, 8);
    LightAgrees(data1, data2, 9);
    LightAgrees(data1, data2, 10);
    LightAgrees(data1, data2, 11);
    LightAgrees(data1, data2, 12);
    LightAgrees(data1, data2, 13);
    LightAgrees(data1, data2, 14);
    LightAgrees(data1, data2, 15);
    LightAgrees(data1, data2, 16);
    LightAgrees(data1, data2, 17);
    UsedBitsFromBits(data1, data2);
  }

  lemma LightAgrees(data1: bv32, data2: bv32, k: nat)
    requires k < LightCount && Expand(data1) == Expand(data2)
    ensures BitSet(data1, LightBits[k]) == BitSet(data2, LightBits[k])
  {
    assert Expand(data1)[k] == Expand(data2)[k];
  }

  lemma SameBitsSameExpansion(data1: bv32, data2: bv32)
    requires data1 & UsedBits == data2 & UsedBits
    ensures Expand(data1) == Expand(data2)
  {
    forall k | 0 <= k < LightCount
      ensures Expand(data1)[k] == Expand(data2)[k]
    {
      UsedBitAgrees(data1, data2, LightBits[k]);
    }
  }

  /** One used bit at a time. The body only splits into the 18 constant
      shifts, each of which the solver settles on its own. */
  lemma UsedBitAgrees(data1: bv32, data2: bv32, bit: nat)
    requires data1 & UsedBits == data2 & UsedBits
    requires 6 <= bit <= 23
    ensures BitSet(data1, bit) == BitSet(data2, bit)
  {
    if bit == 6 {
      assert BitSet(data1, 6) == BitSet(data2, 6);
    } else if bit == 7 {
      assert BitSet(data1, 7) == BitSet(data2, 7);
    } else if bit == 8 {
      assert BitSet(data1, 8) == BitSet(data2, 8);
    } else if bit == 9 {
      assert BitSet(data1, 9) == BitSet(data2, 9);
    } else if bit == 10 {
      assert BitSet(data1, 10) == BitSet(data2, 10);
    } else if bit == 11 {
      assert BitSet(data1, 11) == BitSet(data2, 11);
    } else if bit == 12 {
      assert BitSet(data1, 12) == BitSet(data2, 12);
    } else if bit == 13 {
      assert BitSet(data1, 13) == BitSet(data2, 13);
    } else if bit == 14 {
      assert BitSet(data1, 14) == BitSet(data2, 14);
    } else if bit == 15 {
      assert BitSet(data1, 15) == BitSet(data2, 15);
    } else if bit == 16 {
      assert BitSet(data1, 16) == BitSet(data2, 16);
    } else if bit == 17 {
      assert BitSet(data1, 17) == BitSet(data2, 17);
    } else if bit == 18 {
      assert BitSet(data1, 18) == BitSet(data2, 18);
    } else if bit == 19 {
      assert BitSet(data1, 19) == BitSet(data2, 19);
    } else if bit == 20 {
      assert BitSet(data1, 20) == BitSet(data2, 20);
    } else if bit == 21 {
      assert BitSet(data1, 21) == BitSet(data2, 21);
    } else if bit == 22 {
      assert BitSet(data1, 22) == BitSet(data2, 22);
    } else if bit == 23 {
      assert BitSet(data1, 23) == BitSet(data2, 23);
    }
  }

  lemma UsedBitsFromBits(data1: bv32, data2: bv32)
    requires BitSet(data1, 6) == BitSet(data2, 6)
    requires BitSet(data1, 7) == BitSet(data2, 7)
    requires BitSet(data1, 8) == BitSet(data2, 8)
    requires BitSet(data1, 9) == BitSet(data2, 9)
    requires BitSet(data1, 10) == BitSet(data2, 10)
    requires BitSet(data1, 11) == BitSet(data2, 11)
    requires BitSet(data1, 12) == BitSet(data2, 12)
    requires BitSet(data1, 13) == BitSet(data2, 13)
    requires BitSet(data1, 14) == BitSet(data2, 14)
    requires BitSet(data1, 15) == BitSet(data2, 15)
    requires BitSet(data1, 16) == BitSet(data2, 16)
    requires BitSet(data1, 17) == BitSet(data2, 17)
    requires BitSet(data1, 18) == BitSet(data2, 18)
    requires BitSet(data1, 19) == BitSet(data2, 19)
    requires BitSet(data1, 20) == BitSet(data2, 20)
    requires BitSet(data1, 21) == BitSet(data2, 21)
    requires BitSet(data1, 22) == BitSet(data2, 22)
    requires BitSet(data1, 23) == BitSet(data2, 23)
    ensures data1 & UsedBits == data2 & UsedBits
  {
  }

  /** Only bit 23 set: the first light is lit and no other. */
  lemma TopBitLightsFirstOnly()
    ensures Expand(0x80_0000)[0] == 255
    ensures forall k :: 1 <= k < LightCount ==> Expand(0x80_0000)[k] == 0
  {
  }
}
