/** The USB HID controller board driver (`HidIO`): frame decoding, the
    self-calibrating lever, and the two LED report encoders.

    The hidapi transport is not modelled. Whatever it does is an input: the
    outcome of a connection attempt (a handle or none), of a read (the bytes
    delivered or an error) and of a write (success or an error). */
module Hid {
  import opened Types
  import opened Enums
  import opened Config
  import LeverMap
  import LedBits
  import Colors

  /** An open hidapi device. */
  datatype Handle = Handle(id: nat)

  /** Driver state: the last lever reading, the two button masks, the
      configuration (whose lever bounds drift as the lever is calibrated), and
      the device handle, absent while the board is unplugged. */
  datatype HidIO = HidIO(
    lever: i16,
    leftBtns: bv8,
    rightBtns: bv8,
    config: HidConfig,
    device: Option<Handle>)

  /** `HidIO::new`; `connect` is the outcome of the connection attempt it makes. */
  function New(config: HidConfig, connect: Option<Handle>): (h: HidIO)
    ensures h.lever == 0 && h.leftBtns == 0 && h.rightBtns == 0
    ensures h.config == config && h.device == connect
  {
    HidIO(0, 0, 0, config, connect)
  }

  // ---------------------------------------------------------------- frames

  const ReadSize: nat := 64

  datatype ReadOutcome = ReadOk(bytes: seq<u8>) | ReadErr

  /** What one poll learns from the transport: the connection attempt made if
      no device is open, and the read made if one is. */
  datatype PollInput = PollInput(connect: Option<Handle>, read: ReadOutcome)

  /** The 64-byte read buffer after a successful read: the bytes delivered,
      then the zeros it was initialised with (a non-blocking read may deliver
      fewer than 64 bytes, even none). */
  function ReadBuffer(bytes: seq<u8>): (buf: seq<u8>)
    ensures |buf| == ReadSize
    ensures forall i :: 0 <= i < ReadSize ==> buf[i] == if i < |bytes| then bytes[i] else 0
  {
    if |bytes| >= ReadSize then bytes[..ReadSize]
    else bytes + seq(ReadSize - |bytes|, _ => 0)
  }

  /** One hand's buttons from five consecutive flag bytes starting at `base`, in
      the order Btn1, Btn2, Btn3, Side, Menu: a button is held exactly when its
      byte is 1, and no other bit is ever set. */
  function ClusterMask(data: seq<u8>, base: nat): (m: bv8)
    requires base + 5 <= |data|
    ensures (m & Btn1 != 0) <==> data[base] == 1
    ensures (m & Btn2 != 0) <==> data[base + 1] == 1
    ensures (m & Btn3 != 0) <==> data[base + 2] == 1
    ensures (m & Side != 0) <==> data[base + 3] == 1
    ensures (m & Menu != 0) <==> data[base + 4] == 1
    ensures m & !GameBits == 0
  {
    (if data[base] == 1 then Btn1 else 0) |
    (if data[base + 1] == 1 then Btn2 else 0) |
    (if data[base + 2] == 1 then Btn3 else 0) |
    (if data[base + 3] == 1 then Side else 0) |
    (if data[base + 4] == 1 then Menu else 0)
  }

  /** `i16::from_be_bytes([hi, lo])`: the sign is the top bit of `hi`. */
  function FromBeBytes(hi: u8, lo: u8): (v: i16)
    ensures v < 0 <==> hi >= 0x80
  {
    var u := hi * 256 + lo;
    if u >= 0x8000 then u - 0x1_0000 else u
  }

  /** `i16::to_be_bytes`. */
  function ToBeBytes(v: i16): (bytes: (u8, u8))
  {
    var u := if v < 0 then v + 0x1_0000 else v;
    (u / 256, u % 256)
  }

  /** The two conversions are inverse bijections between `i16` and byte pairs. */
  lemma FromToBeBytes(v: i16)
    ensures FromBeBytes(ToBeBytes(v).0, ToBeBytes(v).1) == v
  {
  }

  lemma ToFromBeBytes(hi: u8, lo: u8)
    ensures ToBeBytes(FromBeBytes(hi, lo)) == (hi, lo)
  {
  }

  /** The decoded content of an input report. */
  datatype Frame = Frame(left: bv8, right: bv8, sample: i16)

  /** Bytes 0-4 are the left buttons, bytes 5-9 the right buttons, bytes 10-11
      the raw lever sample. */
  function Decode(buf: seq<u8>): (f: Frame)
    requires |buf| == ReadSize
    ensures f.left & !GameBits == 0 && f.right & !GameBits == 0
  {
    Frame(ClusterMask(buf, 0), ClusterMask(buf, 5), FromBeBytes(buf[10], buf[11]))
  }

  /** A flag byte as the board sends it. */
  function Flag(held: bool): u8
  {
    if held then 1 else 0
  }

  /** The input report a board would send for a frame (the inverse of `Decode`). */
  function Encode(f: Frame): (buf: seq<u8>)
    ensures |buf| == ReadSize
  {
    [ Flag(f.left & Btn1 != 0), Flag(f.left & Btn2 != 0), Flag(f.left & Btn3 != 0),
      Flag(f.left & Side != 0), Flag(f.left & Menu != 0),
      Flag(f.right & Btn1 != 0), Flag(f.right & Btn2 != 0), Flag(f.right & Btn3 != 0),
      Flag(f.right & Side != 0), Flag(f.right & Menu != 0),
      ToBeBytes(f.sample).0, ToBeBytes(f.sample).1 ]
    + seq(ReadSize - 12, _ => 0)
  }

  /** Decoding an encoded frame gives the frame back, for every frame whose
      masks carry only game-button bits. */
  lemma DecodeEncode(f: Frame)
    requires f.left & !GameBits == 0 && f.right & !GameBits == 0
    ensures Decode(Encode(f)) == f
  {
    var buf := Encode(f);
    FromToBeBytes(f.sample);
    var l := ClusterMask(buf, 0);
    var r := ClusterMask(buf, 5);
    SameGameBits(l, f.left);
    SameGameBits(r, f.right);
  }

  // ----------------------------------------------------------- calibration

  /** The two bounds in ascending order, as the mapping uses them. */
  function Ordered(left: i16, right: i16): (b: (i16, i16))
    ensures b.0 <= b.1
    ensures {b.0, b.1} == {left, right}
  {
    if left < right then (left, right) else (right, left)
  }

  /** One widening step (hid.rs:110-124). The regime is read from the bounds'
      current order: when `left > right` the left bound can only grow and the
      right one only shrink; otherwise the left one can only shrink and the
      right one only grow. Each bound either stays or moves onto the sample,
      and afterwards the sample lies between the ordered bounds. */
  function Widen(left: i16, right: i16, sample: i16): (b: (i16, i16))
    ensures left > right ==> b.0 >= left && b.1 <= right
    ensures left <= right ==> b.0 <= left && b.1 >= right
    ensures (b.0 == left || b.0 == sample) && (b.1 == right || b.1 == sample)
    ensures Ordered(b.0, b.1).0 <= sample <= Ordered(b.0, b.1).1
  {
    if left > right then
      (if sample > left then sample else left, if sample < right then sample else right)
    else
      (if sample < left then sample else left, if sample > right then sample else right)
  }

  /** Widening never changes the regime: reversed bounds stay strictly
      reversed and ordered bounds stay ordered, so the bounds never cross. */
  lemma WidenKeepsRegime(left: i16, right: i16, sample: i16)
    ensures Widen(left, right, sample).0 > Widen(left, right, sample).1 <==> left > right
  {
  }

  /** The bounds end up equal only when they already were and the sample
      equals them; in every other case the lever is remapped. */
  lemma WidenCollapsedIff(left: i16, right: i16, sample: i16)
    ensures Widen(left, right, sample).0 == Widen(left, right, sample).1
        <==> left == right == sample
  {
  }

  /** The bounds after a run of samples, polled in order. */
  function WidenAll(left: i16, right: i16, samples: seq<i16>): (b: (i16, i16))
    decreases |samples|
  {
    if |samples| == 0 then (left, right)
    else
      var w := Widen(left, right, samples[0]);
      WidenAll(w.0, w.1, samples[1..])
  }

  function Lowest(x: i16, samples: seq<i16>): (m: i16)
    ensures m <= x && forall i :: 0 <= i < |samples| ==> m <= samples[i]
    ensures m == x || exists i :: 0 <= i < |samples| && m == samples[i]
    decreases |samples|
  {
    if |samples| == 0 then x
    else
      var rest := Lowest(if samples[0] < x then samples[0] else x, samples[1..]);
      assert forall i :: 1 <= i < |samples| ==> samples[i] == samples[1..][i - 1];
      rest
  }

  function Highest(x: i16, samples: seq<i16>): (m: i16)
    ensures m >= x && forall i :: 0 <= i < |samples| ==> m >= samples[i]
    ensures m == x || exists i :: 0 <= i < |samples| && m == samples[i]
    decreases |samples|
  {
    if |samples| == 0 then x
    else
      var rest := Highest(if samples[0] > x then samples[0] else x, samples[1..]);
      assert forall i :: 1 <= i < |samples| ==> samples[i] == samples[1..][i - 1];
      rest
  }

  /** Over any run of polls the bounds are running extremes of the initial
      bound and the samples seen, but which bound tracks the minimum depends on
      the initial regime: the left one when `left <= right`, the right one when
      `left > right`. */
  lemma {:induction false} WidenAllTracksExtremes(left: i16, right: i16, samples: seq<i16>)
    ensures left <= right ==> WidenAll(left, right, samples) == (Lowest(left, samples), Highest(right, samples))
    ensures left > right ==> WidenAll(left, right, samples) == (Highest(left, samples), Lowest(right, samples))
    decreases |samples|
  {
    if |samples| > 0 {
      var w := Widen(left, right, samples[0]);
      WidenKeepsRegime(left, right, samples[0]);
      WidenAllTracksExtremes(w.0, w.1, samples[1..]);
    }
  }

  /** The lever reading after widening to bounds `left`, `right`, as hid.rs
      lines 126-142 write it: unchanged while the bounds coincide, otherwise
      the sample mapped from the ordered bounds onto [-32768, 32768] by `map`
      in wrapping `i32` arithmetic, then narrowed `as i16`. */
  function NextLeverAsWritten(prev: i16, left: i16, right: i16, sample: i16): (v: i16)
    ensures left == right ==> v == prev
  {
    var (inMin, inMax) := Ordered(left, right);
    if right != left then WrapI16(LeverMap.MapI32(sample, inMin, inMax, LeverMap.OutMin, LeverMap.OutMax))
    else prev
  }

  /** The lever reading the driver evidently means: the exact mapping, with a
      mapped value above the `i16` range saturating at 32767 instead of
      wrapping. */
  function NextLever(prev: i16, left: i16, right: i16, sample: i16): (v: i16)
    ensures left == right ==> v == prev
  {
    var (inMin, inMax) := Ordered(left, right);
    if right != left then
      var m := LeverMap.Map(sample, inMin, inMax, LeverMap.OutMin, LeverMap.OutMax);
      if m > 0x7FFF then 0x7FFF else WrapI16(m)
    else prev
  }

  /** Over the calibrated range the corrected reading never decreases as the
      sample grows, runs from -32768 at the lower bound to 32767 at the upper
      one, and below the upper bound is the mapped value itself. */
  lemma NextLeverShape(prev: i16, left: i16, right: i16, sample: i16, other: i16)
    requires left != right
    requires Ordered(left, right).0 <= sample <= other <= Ordered(left, right).1
    ensures var (inMin, inMax) := Ordered(left, right);
      && (other < inMax ==> NextLever(prev, left, right, other)
                              == LeverMap.Map(other, inMin, inMax, LeverMap.OutMin, LeverMap.OutMax))
      && NextLever(prev, left, right, sample) <= NextLever(prev, left, right, other)
      && NextLever(prev, left, right, inMin) == -32768
      && NextLever(prev, left, right, inMax) == 32767
  {
    var (inMin, inMax) := Ordered(left, right);
    LeverMap.MapEndpoints(inMin, inMax, LeverMap.OutMin, LeverMap.OutMax);
    if other < inMax {
      LeverMap.MapBelowTop(other, inMin, inMax, LeverMap.OutMin, LeverMap.OutMax);
    }
    if sample < inMax {
      LeverMap.MapBelowTop(sample, inMin, inMax, LeverMap.OutMin, LeverMap.OutMax);
    }
    LeverMap.MapMonotonic(sample, other, inMin, inMax, LeverMap.OutMin, LeverMap.OutMax);
  }

  /** The reading as written, on a calibrated range. While the sample lies
      less than 32768 above the lower bound the `i32` product does not
      overflow, and the reading is the exact mapping narrowed `as i16`. On a
      range narrower than 32768 it therefore agrees with the corrected
      reading below the upper bound, but the upper bound itself (the lever at
      its calibrated extreme, which widening makes every new extreme) reads
      -32768, the value of the opposite extreme. */
  lemma NextLeverAsWrittenWrapsAtTop(prev: i16, left: i16, right: i16, sample: i16)
    requires left != right
    requires Ordered(left, right).0 <= sample <= Ordered(left, right).1
    ensures var (inMin, inMax) := Ordered(left, right);
      && (sample - inMin < 32768 ==>
            NextLeverAsWritten(prev, left, right, sample)
              == WrapI16(LeverMap.Map(sample, inMin, inMax, LeverMap.OutMin, LeverMap.OutMax)))
      && (inMax - inMin < 32768 && sample < inMax ==>
            NextLeverAsWritten(prev, left, right, sample) == NextLever(prev, left, right, sample))
      && NextLeverAsWritten(prev, left, right, inMin) == -32768
      && (inMax - inMin < 32768 ==> NextLeverAsWritten(prev, left, right, inMax) == -32768)
      && NextLever(prev, left, right, inMax) == 32767
  {
    var (inMin, inMax) := Ordered(left, right);
    LeverMap.MapEndpoints(inMin, inMax, LeverMap.OutMin, LeverMap.OutMax);
    LeverMap.PollMapOverflowIff(sample, inMin, inMax);
    LeverMap.PollMapOverflowIff(inMin, inMin, inMax);
    LeverMap.PollMapOverflowIff(inMax, inMin, inMax);
    if sample < inMax {
      LeverMap.MapBelowTop(sample, inMin, inMax, LeverMap.OutMin, LeverMap.OutMax);
    }
  }

  /** On a range 40000 wide (bounds -20000 and 20000) the `i32` product
      overflows: as written, the upper bound reads -9070 and a sample three
      quarters of the way up reads -17262, where the corrected readings are
      32767 and 24576. */
  lemma NextLeverAsWrittenWideRange()
    ensures NextLeverAsWritten(0, -20000, 20000, 20000) == -9070
    ensures NextLeverAsWritten(0, -20000, 20000, 15000) == -17262
    ensures NextLever(0, -20000, 20000, 20000) == 32767
    ensures NextLever(0, -20000, 20000, 15000) == 24576
  {
    LeverMap.MapI32OverflowExample();
    LeverMap.MapEndpoints(-20000, 20000, LeverMap.OutMin, LeverMap.OutMax);
    assert 40000 * 65536 == 2621440000;
    assert WrapI32(2621440000) == -1673527296;
    assert TruncDiv(-1673527296, 40000) == -41838;
    assert WrapI16(-74606) == -9070;
  }

  // ------------------------------------------------------------------ poll

  /** A successful read: both masks decoded afresh, the bounds widened toward
      the sample, the lever remapped as the code writes it. */
  function PollFrame(h: HidIO, buf: seq<u8>): (r: HidIO)
    requires |buf| == ReadSize
    ensures r.device == h.device
    ensures r.config == h.config.(leverLeft := r.config.leverLeft, leverRight := r.config.leverRight)
  {
    var f := Decode(buf);
    var (left, right) := Widen(h.config.leverLeft, h.config.leverRight, f.sample);
    h.(leftBtns := f.left,
       rightBtns := f.right,
       config := h.config.(leverLeft := left, leverRight := right),
       lever := NextLeverAsWritten(h.lever, left, right, f.sample))
  }

  /** `PollDriver::poll` (hid.rs:60-145). Always reports success. With no
      device it only tries to reconnect; on a read error both masks drop to 0
      and the handle is released, with lever and bounds untouched. */
  function Poll(h: HidIO, io: PollInput): (r: (HidIO, HResult))
    ensures r.1 == Ok
    ensures h.device.None? ==> r.0 == h.(device := io.connect)
    ensures h.device.Some? && io.read.ReadErr? ==>
      r.0 == h.(leftBtns := 0, rightBtns := 0, device := None)
    ensures h.device.Some? && io.read.ReadOk? ==> r.0.device == h.device
  {
    match h.device
    case None => (h.(device := io.connect), Ok)
    case Some(_) =>
      match io.read
      case ReadErr => (h.(leftBtns := 0, rightBtns := 0, device := None), Ok)
      case ReadOk(bytes) => (PollFrame(h, ReadBuffer(bytes)), Ok)
  }

  /** After a successful read, the masks say exactly which flag bytes were 1
      and the lever bounds have widened toward the sample carried in bytes 10
      and 11, per regime, so that the sample lies between them. */
  lemma PollDecodesFrame(h: HidIO, io: PollInput)
    requires h.device.Some? && io.read.ReadOk?
    ensures var buf := ReadBuffer(io.read.bytes);
      var r := Poll(h, io).0;
      var sample := FromBeBytes(buf[10], buf[11]);
      var (inMin, inMax) := Ordered(r.config.leverLeft, r.config.leverRight);
      && ((r.leftBtns & Btn1 != 0) <==> buf[0] == 1)
      && ((r.leftBtns & Btn2 != 0) <==> buf[1] == 1)
      && ((r.leftBtns & Btn3 != 0) <==> buf[2] == 1)
      && ((r.leftBtns & Side != 0) <==> buf[3] == 1)
      && ((r.leftBtns & Menu != 0) <==> buf[4] == 1)
      && ((r.rightBtns & Btn1 != 0) <==> buf[5] == 1)
      && ((r.rightBtns & Btn2 != 0) <==> buf[6] == 1)
      && ((r.rightBtns & Btn3 != 0) <==> buf[7] == 1)
      && ((r.rightBtns & Side != 0) <==> buf[8] == 1)
      && ((r.rightBtns & Menu != 0) <==> buf[9] == 1)
      && r.leftBtns & !GameBits == 0 && r.rightBtns & !GameBits == 0
      && (h.config.leverLeft > h.config.leverRight ==>
            r.config.leverLeft >= h.config.leverLeft && r.config.leverRight <= h.config.leverRight)
      && (h.config.leverLeft <= h.config.leverRight ==>
            r.config.leverLeft <= h.config.leverLeft && r.config.leverRight >= h.config.leverRight)
      && inMin <= sample <= inMax
  {
  }

  /** After a successful read the lever keeps its previous value whenever
      the widened bounds coincide. Otherwise it is remapped, and while the
      sample lies less than 32768 above the lower bound it is the exact
      mapping narrowed `as i16`: the mapped value itself below the upper bound
      of a range narrower than 32768, and -32768 at that upper bound. */
  lemma PollLever(h: HidIO, io: PollInput)
    requires h.device.Some? && io.read.ReadOk?
    ensures var buf := ReadBuffer(io.read.bytes);
      var r := Poll(h, io).0;
      var sample := FromBeBytes(buf[10], buf[11]);
      var (inMin, inMax) := Ordered(r.config.leverLeft, r.config.leverRight);
      && (inMin == inMax ==> r.lever == h.lever)
      && (inMin < inMax && sample - inMin < 32768 ==>
            r.lever == WrapI16(LeverMap.Map(sample, inMin, inMax, LeverMap.OutMin, LeverMap.OutMax)))
      && (inMin < inMax && inMax - inMin < 32768 && sample < inMax ==>
            r.lever == LeverMap.Map(sample, inMin, inMax, LeverMap.OutMin, LeverMap.OutMax))
      && (inMin < inMax && inMax - inMin < 32768 && sample == inMax ==> r.lever == -32768)
  {
    var buf := ReadBuffer(io.read.bytes);
    var sample := FromBeBytes(buf[10], buf[11]);
    var (left, right) := Widen(h.config.leverLeft, h.config.leverRight, sample);
    if left != right {
      NextLeverAsWrittenWrapsAtTop(h.lever, left, right, sample);
      NextLeverShape(h.lever, left, right, sample, sample);
    }
  }

  /** A successful read with the corrected lever reading: identical to
      `PollFrame` except for the lever. */
  function PollFrameCorrected(h: HidIO, buf: seq<u8>): (r: HidIO)
    requires |buf| == ReadSize
    ensures r == PollFrame(h, buf).(lever := r.lever)
  {
    var p := PollFrame(h, buf);
    p.(lever := NextLever(h.lever, p.config.leverLeft, p.config.leverRight, Decode(buf).sample))
  }

  /** `poll` with the corrected lever reading: it differs from `Poll` in the
      lever alone, and only after a successful read. */
  function PollCorrected(h: HidIO, io: PollInput): (r: (HidIO, HResult))
    ensures r.1 == Ok
    ensures r.0 == Poll(h, io).0.(lever := r.0.lever)
    ensures !(h.device.Some? && io.read.ReadOk?) ==> r.0 == Poll(h, io).0
  {
    match h.device
    case None => Poll(h, io)
    case Some(_) =>
      match io.read
      case ReadErr => Poll(h, io)
      case ReadOk(bytes) => (PollFrameCorrected(h, ReadBuffer(bytes)), Ok)
  }

  /** After a successful read the corrected lever keeps its previous value
      whenever the widened bounds coincide; otherwise it is the exact
      mapped sample, with a sample at the upper bound reading 32767. */
  lemma PollCorrectedLever(h: HidIO, io: PollInput)
    requires h.device.Some? && io.read.ReadOk?
    ensures var buf := ReadBuffer(io.read.bytes);
      var r := PollCorrected(h, io).0;
      var sample := FromBeBytes(buf[10], buf[11]);
      var (inMin, inMax) := Ordered(r.config.leverLeft, r.config.leverRight);
      && (inMin == inMax ==> r.lever == h.lever)
      && (inMin < inMax && sample < inMax ==>
            r.lever == LeverMap.Map(sample, inMin, inMax, LeverMap.OutMin, LeverMap.OutMax))
      && (inMin < inMax && sample == inMax ==> r.lever == 32767)
  {
    var buf := ReadBuffer(io.read.bytes);
    var sample := FromBeBytes(buf[10], buf[11]);
    var (left, right) := Widen(h.config.leverLeft, h.config.leverRight, sample);
    if left != right {
      NextLeverShape(h.lever, left, right, sample, sample);
    }
  }

  /** However often it is polled while the board stays unplugged, the driver
      keeps its masks, lever and bounds. */
  lemma PollWhileUnplugged(h: HidIO, io: PollInput)
    requires h.device.None? && io.connect.None?
    ensures Poll(h, io).0 == h
  {
  }

  // ------------------------------------------------------------------ LEDs

  datatype WriteOutcome = WriteOk | WriteErr

  /** What one LED update learns from the transport. */
  datatype LedInput = LedInput(connect: Option<Handle>, write: WriteOutcome)

  /** The driver after an LED update, and the output report written, if one was. */
  datatype LedResult = LedResult(hid: HidIO, report: Option<seq<u8>>)

  const ReportSize: nat := 65

  /** An output report: a zero report-id byte, a zero byte, the marker 100,
      then 18 payload bytes, then zeros to 65 bytes. */
  ghost predicate IsReport(rep: seq<u8>, payload: seq<u8>)
  {
    && |payload| == 18
    && |rep| == ReportSize
    && rep[0] == 0 && rep[1] == 0 && rep[2] == 100
    && rep[3..21] == payload
    && forall i :: 21 <= i < ReportSize ==> rep[i] == 0
  }

  /** The 65-byte buffer the cursor writes fill (hid.rs:185-188, 227-230). */
  function Report(payload: seq<u8>): (rep: seq<u8>)
    requires |payload| == 18
    ensures IsReport(rep, payload)
  {
    [0, 0, 100] + payload + seq(ReportSize - 21, _ => 0)
  }

  /** The shift applied to the mask for each payload byte, in the order
      hid.rs:190-207 writes them. The source spells this list out separately
      in each LED driver; each copy is kept here, and its agreement with
      `LedBits.LightBits` is proved rather than assumed. */
  const LegacyShifts: seq<nat> := [23, 19, 22, 20, 21, 18, 17, 16, 15, 14, 13, 12, 11, 10, 9, 8, 7, 6]

  /** The legacy payload: byte `k` is `((data >> LegacyShifts[k]) & 1) * 255`. */
  function LegacyPayload(data: bv32): (p: seq<u8>)
    ensures |p| == LedBits.LightCount
  {
    seq(|LegacyShifts|, k requires 0 <= k < |LegacyShifts| => LedBits.Light(data, LegacyShifts[k]))
  }

  /** The payload the HID driver writes agrees with the light table. */
  lemma LegacyPayloadMatchesTable(data: bv32)
    ensures LegacyPayload(data) == LedBits.Expand(data)
  {
    assert LegacyShifts == LedBits.LightBits;
  }

  /** `LEDriver::set_led` (hid.rs:179-215). With no device it only tries to
      reconnect and writes nothing. Otherwise it writes one report whose
      payload is the table expansion of the mask, and releases the handle if
      the write fails. */
  function SetLed(h: HidIO, data: bv32, io: LedInput): (r: LedResult)
    ensures h.device.None? ==> r == LedResult(h.(device := io.connect), None)
    ensures h.device.Some? ==> r.report.Some? && IsReport(r.report.value, LedBits.Expand(data))
    ensures h.device.Some? ==> r.hid == if io.write.WriteErr? then h.(device := None) else h
  {
    match h.device
    case None => LedResult(h.(device := io.connect), None)
    case Some(_) =>
      LegacyPayloadMatchesTable(data);
      var rep := Report(LegacyPayload(data));
      LedResult(if io.write.WriteErr? then h.(device := None) else h, Some(rep))
  }

  /** The first six lights' colour bytes in R, G, B order (hid.rs:231-240). */
  function ColorPayload(rgb: seq<Rgb>): (p: seq<u8>)
    requires |rgb| >= 6
  {
    [ rgb[0].r, rgb[0].g, rgb[0].b,
      rgb[1].r, rgb[1].g, rgb[1].b,
      rgb[2].r, rgb[2].g, rgb[2].b,
      rgb[3].r, rgb[3].g, rgb[3].b,
      rgb[4].r, rgb[4].g, rgb[4].b,
      rgb[5].r, rgb[5].g, rgb[5].b ]
  }

  /** The literal list is the flat layout of the first six colours. */
  lemma ColorPayloadIsFlatten(rgb: seq<Rgb>)
    requires |rgb| >= 6
    ensures ColorPayload(rgb) == Colors.Flatten(rgb[..6])
  {
    var cs := rgb[..6];
    Colors.FlattenLayout(cs, 0);
    Colors.FlattenLayout(cs, 1);
    Colors.FlattenLayout(cs, 2);
    Colors.FlattenLayout(cs, 3);
    Colors.FlattenLayout(cs, 4);
    Colors.FlattenLayout(cs, 5);
  }

  /** `LEDriverNew::set_led_new` (hid.rs:220-247). Any board but 1 is ignored
      without even a reconnection attempt. For board 1 with no device it only
      tries to reconnect; with a device it writes one report carrying the
      red, green and blue bytes of the first six colours in order, and
      releases the handle if the write fails. The source indexes `rgb[0]` to
      `rgb[5]`, so it needs six colours in that case. */
  function SetLedNew(h: HidIO, board: u8, rgb: seq<Rgb>, io: LedInput): (r: LedResult)
    requires board == 1 && h.device.Some? ==> |rgb| >= 6
    ensures board != 1 ==> r == LedResult(h, None)
    ensures board == 1 && h.device.None? ==> r == LedResult(h.(device := io.connect), None)
    ensures board == 1 && h.device.Some? ==>
      && r.report.Some?
      && IsReport(r.report.value, Colors.Flatten(rgb[..6]))
      && r.hid == if io.write.WriteErr? then h.(device := None) else h
  {
    if board != 1 then LedResult(h, None)
    else
      match h.device
      case None => LedResult(h.(device := io.connect), None)
      case Some(_) =>
        ColorPayloadIsFlatten(rgb);
        var rep := Report(ColorPayload(rgb));
        LedResult(if io.write.WriteErr? then h.(device := None) else h, Some(rep))
  }
}
