/** The LED debug sink (`LEDebug`): prints the 18 brightness values a legacy LED
    mask stands for. The printing is not modelled; `SetLed` returns the values. */
module LedDebug {
  import opened Types
  import LedBits
  import Hid

  /** The shift applied to the mask for each printed value, in the order
      led_debug.rs:19-36 prints them: the debug sink's own copy of the list
      the HID driver also spells out (`Hid.LegacyShifts`). */
  const DebugShifts: seq<nat> := [23, 19, 22, 20, 21, 18, 17, 16, 15, 14, 13, 12, 11, 10, 9, 8, 7, 6]

  /** One printed value: the `u32` `((data >> shift) & 1) * 255`, printed as is. */
  function Value(data: bv32, shift: nat): int
    requires shift < 32
  {
    (((data >> shift) & 1) * 255) as int
  }

  /** A printed value is 255 when its bit is set and 0 otherwise. */
  lemma ValueIsBrightness(data: bv32, shift: nat)
    requires shift < 32
    ensures Value(data, shift) == if LedBits.BitSet(data, shift) then 255 else 0
  {
  }

  /** `LEDebug::set_led` (led_debug.rs:16-38): 18 values, value `k` being 255
      exactly when bit `DebugShifts[k]` of the mask is set, and 0 otherwise. */
  function SetLed(data: bv32): (values: seq<int>)
    ensures |values| == LedBits.LightCount
    ensures forall k :: 0 <= k < |values| ==>
      values[k] == if LedBits.BitSet(data, DebugShifts[k]) then 255 else 0
  {
    var values := seq(|DebugShifts|, k requires 0 <= k < |DebugShifts| => Value(data, DebugShifts[k]));
    forall k | 0 <= k < |values|
      ensures values[k] == if LedBits.BitSet(data, DebugShifts[k]) then 255 else 0
    {
      ValueIsBrightness(data, DebugShifts[k]);
    }
    values
  }

  /** The printed values are the light table's expansion of the mask. */
  lemma SetLedMatchesTable(data: bv32)
    ensures SetLed(data) == LedBits.Expand(data)
  {
    assert DebugShifts == LedBits.LightBits;
  }

  /** Every printed value is 0 or 255. */
  lemma SetLedIsOnOff(data: bv32)
    ensures forall k :: 0 <= k < |SetLed(data)| ==> SetLed(data)[k] == 0 || SetLed(data)[k] == 255
  {
    SetLedMatchesTable(data);
    LedBits.ExpandIsOnOff(data);
  }

  /** Two masks print the same values exactly when they agree on bits 6-23;
      bits 0-5 and 24-31 never show. */
  lemma SetLedIgnoresUnusedBits(data1: bv32, data2: bv32)
    ensures SetLed(data1) == SetLed(data2) <==> data1 & LedBits.UsedBits == data2 & LedBits.UsedBits
  {
    SetLedMatchesTable(data1);
    SetLedMatchesTable(data2);
    LedBits.ExpandDeterminesUsedBits(data1, data2);
  }

  /** Bit 23 alone lights only the first value. */
  lemma SetLedTopBit()
    ensures SetLed(0x80_0000)[0] == 255
    ensures forall k :: 1 <= k < |SetLed(0x80_0000)| ==> SetLed(0x80_0000)[k] == 0
  {
    SetLedMatchesTable(0x80_0000);
    LedBits.TopBitLightsFirstOnly();
  }

  /** For the same mask, the debug sink prints exactly the bytes the HID driver
      writes at positions 3 to 20 of its report. */
  lemma SetLedMatchesHidReport(h: Hid.HidIO, data: bv32, io: Hid.LedInput)
    requires h.device.Some?
    ensures Hid.SetLed(h, data, io).report.Some?
    ensures Hid.SetLed(h, data, io).report.value[3..21] == SetLed(data)
  {
    SetLedMatchesTable(data);
  }
}
