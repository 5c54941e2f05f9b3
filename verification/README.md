# ongeki-io-rs core, modelled in Dafny

This project models ongeki-io-rs, a Windows input/output library for an
arcade rhythm cabinet. The game polls the library for three button masks
(operator, left hand, right hand) and a signed 16-bit lever position. It
pushes LED states to the library: a legacy 24-bit on/off mask, and RGB
colours per board. The library keeps a registry of drivers built from a
configuration:

- a keyboard (plus the two mouse buttons);
- a mouse, used as the lever;
- a debug sink that prints LED states;
- a USB HID controller board.

The HID board sends 64-byte input reports: ten button flag bytes and a
big-endian lever sample. It calibrates the lever itself, by widening two
persistent bounds toward the extremes it observes. It accepts 65-byte LED
output reports.

The model is purely functional. Every driver is an immutable datatype, and
every operation returns the new driver state. The outside world enters as
parameters:

- the HID connection attempt, read and write outcomes;
- the operating system's key-state query;
- the mouse's lever reading.

Bytes and 16/32-bit integers are integer subset types; button masks are
`bv8`, and the legacy LED mask is `bv32`. Rust's truncating division and
`as` narrowing are written out (`Types.TruncDiv`, `Types.WrapI16`,
`Types.WrapI32`).

Modules:

- `Types`, `Enums`, `Config`: integer widths, the button bit constants, and
  the configuration records.
- `LeverMap`: the linear rescaling `map`, both exact and in wrapping `i32`.
- `LedBits`: the 18-light table that both LED encoders apply to the legacy mask.
- `Colors`: byte triples ⇄ RGB values.
- `Hid`: the HID board driver (decode, calibration, poll, both LED reports).
- `Keyboard`, `Mouse`, `LedDebug`: the other three drivers.
- `Drivers`: the registry.
- `Api`: the library's exported entry points that carry logic.

## Model

| member | source | states |
|---|---|---|
| Types.WrapI16 | src/drivers/hid.rs:135-141 | The `as i16` narrowing: the result agrees with its input modulo 2^16 and leaves in-range values alone |
| Types.WrapI32 | src/drivers/hid.rs:150-155 | Wrapping `i32` arithmetic: the result agrees with its input modulo 2^32 and leaves in-range values alone |
| Types.TruncDiv | src/drivers/hid.rs:155 | Rust's integer `/`: the magnitude is the quotient of the magnitudes, the sign follows the operands' signs, and it agrees with Euclidean division for a non-negative dividend |
| Enums.SameGameBits | src/enums.rs:14-20 | Two masks within the five game bits are equal when Btn1, Btn2, Btn3, Side and Menu agree |
| Enums.SameOpBits | src/enums.rs:5-9 | Two masks within the three operator bits are equal when Test, Service and Coin agree |
| LeverMap.Map | src/drivers/hid.rs:148-156 | A degenerate input range gives `out_min`; for a sample inside an ordered input range the result stays within the output range |
| LeverMap.MapExample | src/drivers/hid.rs:256-258 | `map(12, -280, 280, -20000, 20000)` is 857, as the repository's unit test expects, both for the exact mapping and for the `i32` arithmetic the code uses |
| LeverMap.MapEndpoints | src/drivers/hid.rs:148-156 | The lower input bound maps to `out_min` and the upper to `out_max` |
| LeverMap.MapMonotonic | src/drivers/hid.rs:148-156 | Over an ordered input range, a larger sample never maps to a smaller value |
| LeverMap.MapBelowTop | src/drivers/hid.rs:148-156 | Any sample below the upper input bound maps strictly below `out_max` |
| LeverMap.MapI32 | src/drivers/hid.rs:148-156 | `map` in wrapping `i32` arithmetic equals the exact mapping whenever no intermediate value leaves `i32` |
| LeverMap.PollMapOverflowIff | src/drivers/hid.rs:135-141 | Called as poll calls it, `map` stays inside `i32` if and only if the sample is less than 32768 above the lower bound |
| LeverMap.MapI32OverflowExample | src/drivers/hid.rs:150 | Bounds -20000/20000 and sample 15000: exact 24576, wrapped product -82798, lever reading -17262 |
| LedBits.LightIsBrightness | src/drivers/hid.rs:190-207 | `((data >> p) & 1) * 255` is 255 when bit `p` is set and 0 otherwise |
| LedBits.LightBitsArePermutation | src/drivers/hid.rs:190-207 | The 18 shifts are distinct and are exactly bits 6 to 23 |
| LedBits.ExpandIsOnOff | src/drivers/hid.rs:190-207 | Every light of an expanded mask is 0 or 255 |
| LedBits.ExpandDeterminesUsedBits | src/drivers/hid.rs:190-207 | Two masks expand alike if and only if they agree on bits 6-23 |
| LedBits.SameExpansionSameBits | src/drivers/hid.rs:190-207 | Equal expansions force equal bits 6-23 (one direction of the equivalence) |
| LedBits.SameBitsSameExpansion | src/drivers/hid.rs:190-207 | Equal bits 6-23 force equal expansions (the other direction) |
| LedBits.TopBitLightsFirstOnly | src/drivers/hid.rs:190-207 | Mask 0x800000 lights the first light at 255 and no other |
| Colors.Chunk | src/lib.rs:116-119 | Chunking bytes gives a third as many colours, the first taken from bytes 0, 1, 2 |
| Colors.Flatten | src/drivers/hid.rs:231-240 | Laying colours out gives three bytes per colour |
| Colors.FlattenLayout | src/drivers/hid.rs:231-240 | Colour `i` sits at bytes `3i`, `3i+1`, `3i+2` in R, G, B order |
| Colors.FlattenChunk | src/lib.rs:116-119 | Laying out the chunked colours gives the original bytes back |
| Colors.ChunkFlatten | src/lib.rs:116-119 | Chunking the laid-out colours gives the original colours back |
| Hid.ReadBuffer | src/drivers/hid.rs:66-69 | The 64-byte read buffer holds the bytes the read delivered and zeros after them |
| Hid.ClusterMask | src/drivers/hid.rs:75-105 | A hand's mask has Btn1, Btn2, Btn3, Side, Menu set exactly when the five consecutive flag bytes are 1, and no other bit |
| Hid.FromBeBytes | src/drivers/hid.rs:109 | The big-endian `i16` is negative exactly when the high byte's top bit is set |
| Hid.FromToBeBytes | src/drivers/hid.rs:109 | Encoding an `i16` big-endian and decoding gives it back |
| Hid.ToFromBeBytes | src/drivers/hid.rs:109 | Decoding two bytes and encoding the result gives the bytes back |
| Hid.Decode | src/drivers/hid.rs:75-109 | Decoded masks never carry a bit outside the five game bits |
| Hid.Encode | src/drivers/hid.rs:66-109 | The report a board would send for a frame is 64 bytes |
| Hid.DecodeEncode | src/drivers/hid.rs:75-109 | Decoding the report built for any frame with valid masks returns that frame |
| Hid.Ordered | src/drivers/hid.rs:126-132 | The bounds are returned ascending and as the same pair of values |
| Hid.Widen | src/drivers/hid.rs:110-124 | If left > right, left never decreases and right never increases; otherwise left never increases and right never decreases; each bound keeps its value or takes the sample; the sample then lies between the sorted bounds |
| Hid.WidenKeepsRegime | src/drivers/hid.rs:110-124 | Widening never changes which bound is the larger |
| Hid.WidenCollapsedIff | src/drivers/hid.rs:110-124 | The widened bounds are equal if and only if both bounds and the sample were the same value |
| Hid.Lowest | src/drivers/hid.rs:110-124 | The running minimum is at most every value and is one of them |
| Hid.Highest | src/drivers/hid.rs:110-124 | The running maximum is at least every value and is one of them |
| Hid.WidenAllTracksExtremes | src/drivers/hid.rs:110-124 | Over any run of polls the bounds are the running extremes of the initial bounds and the samples, per regime |
| Hid.New | src/drivers/hid.rs:27-37 | A new driver starts with a centred lever, no buttons held, the given configuration, and whatever device the connection attempt found |
| Hid.NextLeverAsWritten | src/drivers/hid.rs:126-155 | As written: the lever is unchanged while the bounds coincide |
| Hid.NextLever | src/drivers/hid.rs:134-142 | Corrected reading: the lever is unchanged while the bounds coincide |
| Hid.NextLeverShape | src/drivers/hid.rs:126-142 | Corrected reading: non-decreasing over the calibrated range, -32768 at the lower bound, 32767 at the upper, and the mapped value itself below the upper bound |
| Hid.NextLeverAsWrittenWrapsAtTop | src/drivers/hid.rs:126-155 | As written, on a calibrated range: a sample less than 32768 above the lower bound reads the exact mapping narrowed `as i16`. On a range narrower than 32768 the reading agrees with the corrected one below the upper bound, but the upper bound reads -32768, like the lower bound |
| Hid.NextLeverAsWrittenWideRange | src/drivers/hid.rs:135-155 | As written, with bounds -20000/20000: the upper bound reads -9070 and sample 15000 reads -17262, where the corrected readings are 32767 and 24576 |
| Hid.PollFrame | src/drivers/hid.rs:66-142 | A successful read keeps the device and every configuration field except the two lever bounds (the lever it computes is stated by `Hid.PollLever`) |
| Hid.Poll | src/drivers/hid.rs:59-145 | Always Ok. With no device only the connection changes; on a read error both masks drop to 0 and the device is released, lever and bounds untouched; a successful read keeps the device |
| Hid.PollDecodesFrame | src/drivers/hid.rs:75-132 | After a read each mask bit is set exactly when its flag byte is 1, the masks stay in 0x1F, the bounds widen per regime, and the sample lies between the sorted bounds |
| Hid.PollLever | src/drivers/hid.rs:134-142 | After a read the lever keeps its value whenever the widened bounds coincide; otherwise it is remapped. For a sample less than 32768 above the lower bound it is the exact mapping narrowed `as i16`. On a range narrower than 32768 that is the mapped value below the upper bound, and -32768 at the upper bound |
| Hid.PollFrameCorrected | src/drivers/hid.rs:66-142 | The corrected frame update differs from the as-written one in the lever alone |
| Hid.PollCorrected | src/drivers/hid.rs:59-145 | The corrected poll differs from `Hid.Poll` only in the lever, and only after a successful read |
| Hid.PollCorrectedLever | src/drivers/hid.rs:134-142 | Corrected: after a read the lever keeps its value whenever the widened bounds coincide; otherwise it is the exact mapped sample, and 32767 at the upper bound |
| Hid.PollWhileUnplugged | src/drivers/hid.rs:61-64 | Polling without a device, when no device can be found, leaves the driver unchanged |
| Hid.Report | src/drivers/hid.rs:185-188 | An output report is 65 bytes: 0, 0, 100, the 18-byte payload, then zeros |
| Hid.LegacyPayload | src/drivers/hid.rs:189-208 | The legacy payload has 18 bytes |
| Hid.LegacyPayloadMatchesTable | src/drivers/hid.rs:190-207 | The payload written for a mask is the light table's expansion of it |
| Hid.SetLed | src/drivers/hid.rs:179-215 | With no device only the connection changes and nothing is written; otherwise the report carries the mask's expansion, and a write error releases the device |
| Hid.ColorPayloadIsFlatten | src/drivers/hid.rs:231-240 | The 18 colour bytes are the first six colours laid out in R, G, B order |
| Hid.SetLedNew | src/drivers/hid.rs:219-247 | Any board but 1 is ignored. For board 1: with no device only the connection changes; otherwise the report carries the first six colours laid out, and a write error releases the device |
| Keyboard.New | src/drivers/keyboard.rs:16-22 | A new keyboard holds all three masks at 0 and keeps its configuration |
| Keyboard.Poll | src/drivers/keyboard.rs:28-76 | Always Ok. Test, Service and Coin are set exactly when their configured keys are down; left Btn1-3, Menu and Side exactly when 0x41, 0x53, 0x44, 0x55, 0x01 are down; right ones exactly when 0x4A, 0x4B, 0x4C, 0x4F, 0x02 are down; no other bit is set |
| Keyboard.PollSeesExactlyWatchedKeys | src/drivers/keyboard.rs:28-76 | Two polls give the same masks if and only if the key states agree on the 13 watched keys, whatever the masks were before |
| Keyboard.SameMasksSameKeys | src/drivers/keyboard.rs:28-76 | Equal masks imply agreement on every watched key |
| Keyboard.SameKeysSameMasks | src/drivers/keyboard.rs:28-76 | Agreement on every watched key implies equal masks |
| Keyboard.PollIdempotent | src/drivers/keyboard.rs:28-76 | Polling twice under the same key state gives the same driver as polling once |
| Keyboard.DefaultTestKey | src/config.rs:31-36 | With the default keys, holding '1' alone reports Test and nothing else |
| Keyboard.OpBtns | src/drivers/keyboard.rs:78-80 | Reports the operator mask the last poll stored |
| Keyboard.LeftBtns | src/drivers/keyboard.rs:82-84 | Reports the left-hand mask the last poll stored |
| Keyboard.RightBtns | src/drivers/keyboard.rs:86-88 | Reports the right-hand mask the last poll stored |
| Keyboard.AccessorsReportNothingIdle | src/drivers/keyboard.rs:78-88 | Through the accessors a new keyboard reports no button, and so does one polled with no watched key down |
| Mouse.New | src/drivers/mouse.rs:8-16 | A new mouse's lever is centred at 0 |
| Mouse.Poll | src/drivers/mouse.rs:21-39 | The lever takes the reading; always Ok |
| LedDebug.SetLed | src/drivers/led_debug.rs:16-38 | Exactly 18 values; value `k` is 255 when mask bit `DebugShifts[k]` is set and 0 otherwise |
| LedDebug.SetLedMatchesTable | src/drivers/led_debug.rs:16-38 | The 18 printed values are the light table's expansion of the mask |
| LedDebug.SetLedIsOnOff | src/drivers/led_debug.rs:19-36 | Every printed value is 0 or 255 |
| LedDebug.SetLedIgnoresUnusedBits | src/drivers/led_debug.rs:19-36 | Two masks print the same values if and only if they agree on bits 6-23 |
| LedDebug.SetLedTopBit | src/drivers/led_debug.rs:19-36 | Mask 0x800000 prints 255 first and 0 everywhere else |
| LedDebug.SetLedMatchesHidReport | src/drivers/led_debug.rs:19-36 | The values printed equal bytes 3 to 20 of the report the HID board writes for the same mask |
| Drivers.Capabilities | src/drivers/hid.rs:22 | The capability sets the drivers declare here and in keyboard.rs:26-27, mouse.rs:19-20 and 42-43, and led_debug.rs:14-15. Only the debug sink is never polled. The keyboard and the HID board report buttons; the mouse and the HID board report a lever; the debug sink and the HID board take LED masks. Every button or lever source is also polled |
| Drivers.MaskOf | src/drivers/hid.rs:164-176 | A button driver's answer to one query: the keyboard reports the mask its last poll stored (keyboard.rs:78-88); the HID board does the same for the left and right clusters and always answers 0 for the operator buttons |
| Drivers.OrMasks | src/drivers/mod.rs:86-108 | A bit of a button query is set exactly when some button driver reports it |
| Drivers.BitOfOr | src/drivers/mod.rs:91 | A bit of the OR of two masks is set exactly when it is set in either |
| Drivers.SameBits | src/drivers/mod.rs:86-108 | Masks that agree on all eight bits are equal |
| Drivers.NoButtonSourceNoButtons | src/drivers/mod.rs:86-108 | With no button driver every button query answers 0 |
| Drivers.OrMasksOrderFree | src/drivers/mod.rs:86-108 | Reordering the drivers does not change any button query |
| Drivers.LeverOf | src/drivers/hid.rs:158-162 | A lever driver's answer: the position its last poll stored, for the HID board and likewise for the mouse (mouse.rs:43-46) |
| Drivers.Lever | src/drivers/mod.rs:110-116 | None exactly when no driver reports a lever; otherwise the reading of the first driver that does |
| Drivers.LeverAppend | src/drivers/mod.rs:110-116 | Over a concatenation the front list answers if it can, else the back list |
| Drivers.PollOne | src/drivers/mod.rs:78-84 | Polling keeps a driver's kind and leaves a non-pollable driver unchanged |
| Drivers.PollAll | src/drivers/mod.rs:78-84 | Every pollable driver is polled in place; the others are unchanged; length and kinds are kept |
| Drivers.PollKeepsLeverSource | src/drivers/mod.rs:78-84 | A registry has a lever after a poll if and only if it had one before |
| Drivers.SetLedOne | src/drivers/mod.rs:118-124 | Exactly the LED drivers emit something; the others are unchanged |
| Drivers.SetLedAll | src/drivers/mod.rs:118-124 | Position `i` emits exactly when driver `i` takes LED masks; non-LED drivers are unchanged; length and kinds are kept |
| Drivers.SetLedAllForwardsData | src/drivers/mod.rs:118-124 | Every debug output and every HID report written carries the same mask's expansion |
| Drivers.New | src/drivers/mod.rs:45-47 | A new registry holds no driver |
| Drivers.NewIsQuiet | src/drivers/mod.rs:45-47 | A new registry reports no buttons and no lever |
| Drivers.Fresh | src/drivers/mod.rs:63-75 | The driver constructed for a kind is of that kind |
| Drivers.AddedUpTo | src/drivers/mod.rs:63-75 | The number of drivers added for the first `n` kinds is the number of those kinds enabled |
| Drivers.AddedAscending | src/drivers/mod.rs:63-75 | The added drivers come in strictly increasing kind order |
| Drivers.AddedExactlyEnabled | src/drivers/mod.rs:63-75 | A kind is added if and only if it is enabled |
| Drivers.AddedFresh | src/drivers/mod.rs:63-75 | Every added driver is the freshly constructed one of its kind |
| Drivers.Init | src/drivers/mod.rs:63-75 | Existing drivers stay in front; after them come exactly the enabled kinds, in the order keyboard, mouse, debug sink, HID board, each freshly constructed, as many as there are enabled flags |
| Drivers.InitDefault | src/config.rs:28-40 | The default configuration yields a keyboard, a mouse and the debug sink, in that order |
| Drivers.DefaultRegistryQuiet | src/drivers/mod.rs:86-116 | That registry reports no buttons, and its lever reads the mouse's 0 |
| Drivers.KeyboardThenMouseLever | src/drivers/mod.rs:110-116 | With a keyboard in front of a mouse, the lever comes from the mouse |
| Api.ApiVersion | src/lib.rs:20-22 | The announced version is 1.1 (major in the high byte, minor in the low byte), which meets the colour call's stated minimum of 0x0101 |
| Api.GetLever | src/lib.rs:67-72 | 0 when no driver reports a lever; otherwise the first lever driver's reading |
| Api.BufferLen | src/lib.rs:114 | 61 colours of three bytes for board 0, 6 for any other board |
| Api.LedColors | src/lib.rs:114-119 | `len / 3` colours, colour `i` being bytes `3i`, `3i+1`, `3i+2` |
| Api.LedColorsRoundTrip | src/lib.rs:114-119 | Laying the colours out again gives back the bytes read |
| Api.Board1ColorsRoundTrip | src/drivers/hid.rs:231-240 | The 18 bytes the host passes for board 1 reappear unchanged at bytes 3 to 20 of the HID board's report |

The widening direction depends on the current order of the two bounds,
which makes the bounds look as if they could cross and flip the direction
between polls. `Hid.WidenKeepsRegime` shows they cannot: reversed bounds
stay strictly reversed, and ordered bounds stay ordered.

## Left out

- Device access: hidapi enumeration, opening, reading and writing, and
  `try_connect_device` (src/drivers/hid.rs:39-56) are left out. Their
  outcomes are inputs: the handle found, `ReadOk(bytes)`/`ReadErr`, and
  `WriteOk`/`WriteErr`. A non-blocking read that delivers fewer than 64 bytes
  leaves the rest of the buffer zero.
- Operating-system queries: `GetAsyncKeyState` is the `pressed` parameter.
  `GetCursorPos` and `GetSystemMetrics` are left out.
- Mouse.Poll: the mouse's floating-point normalisation of the cursor
  position (src/drivers/mouse.rs:22-36) is not modelled. The reading
  arrives already computed.
- Runtime capability casting (`dyn_dyn`, `intertrait`) is replaced by
  explicit capability flags on the `Drivers.Driver` datatype.
- Wrong type names and trait placement: src/drivers/mod.rs imports
  `KeyBoardIO` and `MouseIO`, but the files define `KeyBoard` and `Mouse`. The
  keyboard's `poll` sits inside its `ButtonDriver` implementation. The model
  treats the keyboard as pollable and a button source, and the mouse as
  pollable and a lever source.
- The registry's `set_led_new` and the `LEDriverNew` trait are called at
  src/lib.rs:121 but not defined in src/drivers/mod.rs. No registry-level
  colour broadcast is modelled. The board-1 round trip is proved against the
  HID driver's own `set_led_new` (`Api.Board1ColorsRoundTrip`).
- Concurrency: the global `RwLock` singleton and its locking (src/lib.rs:15-17)
  are left out. Each entry point takes the registry as a value.
- FFI plumbing: raw-pointer writes, null-pointer checks, console attach and
  backtrace install (src/lib.rs:24-83) are left out. `mu3_io_get_opbtns` and
  `mu3_io_get_gamebtns` are the `Drivers.OrMasks` queries. `mu3_io_init`,
  `mu3_io_poll` and `mu3_io_set_led` are `Drivers.Init`, `Drivers.PollAll`
  and `Drivers.SetLedAll`.
- Configuration file: TOML reading, parsing and default-file writing
  (src/drivers/mod.rs:50-61) are left out. The configuration is an input.
  src/config.rs has no HID section; `Config.HidConfig` holds the fields the
  HID driver reads. `Config.Default` leaves the board disabled.
- Logging: `println!` is left out. The debug sink returns its 18 values
  instead of printing them.
- Drivers.PollAll: every driver of one poll sees the same environment: the
  key state, the mouse reading and the HID transport's outcome. A registry
  built by one `Drivers.Init` from `Drivers.New` holds at most one driver of
  each kind, so nothing is lost there. After a second `mu3_io_init`
  (src/lib.rs:33-34), `Drivers.Init` keeps the earlier drivers, so the
  registry holds two of each enabled kind. Two HID drivers would then share
  one read outcome in the model, where the source gives each its own read.
- LeverMap.MapI32: a debug build panics on `i32` overflow instead of
  wrapping, and the division `i32::MIN / -1` panics in every build. Only
  the wrapping behaviour is modelled, that division included. The HID
  driver never divides by a negative number, because its bounds are sorted
  and differ whenever it calls `map`.
- Drivers.SetLedAll: every HID driver in the list gets the same connection
  outcome and the same write outcome. A registry built by one `Drivers.Init`
  holds at most one HID driver. After a second `mu3_io_init` it can hold
  two, and in the source each connects, writes and fails on its own.

## Findings

| source | as written | input that shows it | evidently intended | confidence | as-written member | corrected member |
|---|---|---|---|---|---|---|
| src/drivers/hid.rs:150 | `(x - in_min) * (out_max - out_min)` is computed in `i32`, with an output width of 65536 | bounds -20000 and 20000, sample 15000: the product 2293760000 exceeds `i32`; a release build reads -17262 instead of 24576, and a debug build panics | the exact product, as in a wider integer type | high, not executed | LeverMap.MapI32, LeverMap.MapI32OverflowExample, Hid.NextLeverAsWrittenWideRange | LeverMap.Map, LeverMap.MapMonotonic, Hid.PollCorrected |
| src/drivers/hid.rs:135-141 | the `map` result over [-32768, 32768] is narrowed with `as i16` | bounds 0 and 100, sample 100: `map` gives 32768, which reads -32768, the same as sample 0; widening makes every new maximum sample equal to the upper bound | full deflection reads a positive extreme; the model saturates at the largest `i16`, 32767 (passing `out_max = 32767` to `map` would serve equally) | medium, not executed | Hid.NextLeverAsWritten, Hid.NextLeverAsWrittenWrapsAtTop, Hid.PollLever | Hid.NextLever, Hid.NextLeverShape, Hid.PollCorrected, Hid.PollCorrectedLever |

`Hid.Poll`, which the driver registry uses, follows the code as written.
`Hid.PollCorrected` is the same poll with both corrections applied: the
exact `LeverMap.Map` and saturation at 32767. It differs from `Hid.Poll`
only in the lever.
