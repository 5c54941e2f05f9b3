/** The host-facing entry points of the library (lib.rs) that carry logic:
    the API version, the lever query's default, and the colour buffer's
    division into lights. The global registry, its lock and the raw-pointer
    writes are not modelled; each entry point takes the registry as a value. */
module Api {
  import opened Types
  import Colors
  import Drivers
  import Hid

  /** The lowest API version at which the host calls `mu3_io_led_set_colors`
      (lib.rs:110). */
  const ColorsMinVersion: u16 := 0x0101

  /** `mu3_io_get_api_version` (lib.rs:20-22): version 1.1, major version in
      the high byte and minor version in the low byte. That is high enough
      for the host to hand over LED colours. */
  function ApiVersion(): (v: u16)
    ensures v / 0x100 == 1 && v % 0x100 == 1
    ensures v >= ColorsMinVersion
  {
    0x0101
  }

  /** `mu3_io_get_lever` (lib.rs:67-72): the registry's lever reading, or 0
      (centre) when no driver reports a lever. */
  function GetLever(ds: seq<Drivers.Driver>): (pos: i16)
    ensures (forall i :: 0 <= i < |ds| ==> !ds[i].LeverSource()) ==> pos == 0
    ensures forall i :: (0 <= i < |ds| && ds[i].LeverSource()
      && (forall j :: 0 <= j < i ==> !ds[j].LeverSource())) ==> pos == Drivers.LeverOf(ds[i])
  {
    var r := Drivers.Lever(ds);
    assert r.Some? ==> forall i :: (0 <= i < |ds| && ds[i].LeverSource()
      && (forall j :: 0 <= j < i ==> !ds[j].LeverSource())) ==> r.value == Drivers.LeverOf(ds[i]) by {
      if r.Some? {
        var k :| 0 <= k < |ds| && ds[k].LeverSource()
          && (forall j :: 0 <= j < k ==> !ds[j].LeverSource())
          && r.value == Drivers.LeverOf(ds[k]);
      }
    }
    r.GetOr(0)
  }

  /** The bytes `mu3_io_led_set_colors` reads for a board (lib.rs:114): 61
      lights on board 0, 6 on any other board, three bytes each. */
  function BufferLen(board: u8): (len: nat)
    ensures len % 3 == 0
    ensures board == 0 ==> len / 3 == 61
    ensures board != 0 ==> len / 3 == 6
  {
    if board == 0 then 183 else 18
  }

  /** The colours `mu3_io_led_set_colors` hands on (lib.rs:115-119): light `i`
      takes bytes `3i`, `3i + 1` and `3i + 2` as red, green and blue. The
      host must supply at least `BufferLen(board)` bytes. */
  function LedColors(board: u8, mem: seq<u8>): (cs: seq<Rgb>)
    requires |mem| >= BufferLen(board)
    ensures 3 * |cs| == BufferLen(board)
    ensures forall i :: 0 <= i < |cs| ==> cs[i] == Rgb(mem[3 * i], mem[3 * i + 1], mem[3 * i + 2])
  {
    var bytes := mem[..BufferLen(board)];
    var cs := Colors.Chunk(bytes);
    forall i | 0 <= i < |cs|
      ensures cs[i] == Rgb(mem[3 * i], mem[3 * i + 1], mem[3 * i + 2])
    {
      Colors.FlattenChunk(bytes);
      Colors.FlattenLayout(cs, i);
    }
    cs
  }

  /** The colours can be laid out again as the bytes they came from. */
  lemma LedColorsRoundTrip(board: u8, mem: seq<u8>)
    requires |mem| >= BufferLen(board)
    ensures Colors.Flatten(LedColors(board, mem)) == mem[..BufferLen(board)]
  {
    Colors.FlattenChunk(mem[..BufferLen(board)]);
  }

  /** Round trip for board 1 through the HID board: the 18 colour bytes the
      host passes reappear unchanged, in order, at bytes 3 to 20 of the report
      the HID driver writes. */
  lemma Board1ColorsRoundTrip(h: Hid.HidIO, mem: seq<u8>, io: Hid.LedInput)
    requires |mem| >= 18 && h.device.Some?
    ensures var r := Hid.SetLedNew(h, 1, LedColors(1, mem), io);
      r.report.Some? && r.report.value[3..21] == mem[..18]
  {
    var cs := LedColors(1, mem);
    LedColorsRoundTrip(1, mem);
    assert cs[..6] == cs;
  }
}
