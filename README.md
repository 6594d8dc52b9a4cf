# delay_map and the screencap clamps, in Dafny

This project models two frei0r plugins:

- **delay_map** is a two-input mixer. Each call stores the input frame in a ring of 180 frame slots. The output is then built byte by byte. Each output byte comes from the slot that the second input, the map image, selects for that byte.
- **screencap** contributes two small pieces. One is the branch-free byte clamp `CLAMP0255`. The other is how its position parameter is clamped to [0, 1].

The C++ integer semantics are modelled explicitly wherever they change the result:

- conversion of a double to int truncates toward zero (`TruncToInt`);
- `%` on int truncates, so the remainder takes the dividend's sign (`CRem`);
- converting the int slot to size_t wraps modulo 2^64 (`CombinedIndex`);
- `>>` on int32_t is an arithmetic shift (`ShiftRight31`).

Overflow of `-a` and `255 - a` in `CLAMP0255` is undefined behaviour in C++, not a wrap. The model treats it as a two's-complement wrap modulo 2^32 (`Clamp0255` works on `bv32`). Only the results for the 256 lowest values depend on that reading: the last case of `ClampCases`, `Int32MinClampsHigh` and `LowestValuesClampHigh`.

The modules follow the source files:

- `DelayIndex` (`delay_index.dfy`) covers the per-byte index arithmetic of `update`.
- `DelayMap` (`delay_map.dfy`) has the `DelayMapInstance` class and the parameter store. The class holds the 180-slot history as an array, plus the cursor and the parameters. It also has the specification functions that `Update` is proved against:
  - `WriteSlot` and `SlotOf`: the history as a sequence;
  - `SourceSlot`: the slot one map byte selects;
  - `Trips`: the bounds guard;
  - `FirstTrip`: the first output byte whose guard trips.
- `Screencap` (`screencap.dfy`) has `CLAMP0255` and the position parameter.

`Update` also keeps a ghost history, `Recent`: the frames submitted by completed updates, newest first. Its invariant `HistoryHolds` says that the frame submitted `a` updates ago sits `a + 1` slots before the cursor, for every `a < 179`. The 180th slot is the cursor's own, the next to be overwritten. With this invariant `Update` promises the following for a completed update: output byte `p` holds byte `p` of the frame submitted `(-offset) mod 180` updates ago. This holds for every age from 0 (the frame just submitted) to 179 (the oldest still stored), whenever that many frames have been submitted.

The model follows the code as written:

- the offset is truncated, not rounded. The TODO at delay_map.cpp:85 notes that rounding was never added;
- one `(180 + pre) % 180` is computed, not a double modulo. When `pre < -180` and `pre` is not a multiple of 180, this gives a negative slot. The size_t guard then catches it and `update` returns early: the cursor slot has already been overwritten, the rest of the output is not written, and the cursor does not advance;
- the setter's `std::clamp` results are discarded, so scale and offset are stored exactly as given.

- the comment at delay_map.cpp:101 says black means the most recent image and white the earliest. The code does not do that over the full byte range. With scale 1, offset 0 and no invert, map byte 255 gives offset -180, and the modulo wraps that back to the cursor slot. That slot holds the frame just submitted, so white reads the newest frame, like black. Byte 254 gives offset -179 and reads the oldest frame. With invert, byte 2 already reaches the oldest frame (`BoundarySamples`). For scale >= 0, offsets are monotone in the map byte: non-increasing without invert, non-decreasing with it (`FrameOffsetMonotone`). Frame ages still wrap.

## Model

| member | source | states |
|---|---|---|
| DelayIndex.TruncToInt | src/mixer2/delay_map/delay_map.cpp:103-104 | the double-to-int conversion truncates toward zero: the result is within 1 of its argument, on the side of zero |
| DelayIndex.ScaledDelay | src/mixer2/delay_map/delay_map.cpp:103-104 | the scaled delay 180 * (scale * m / 255 + offset) is non-negative for non-negative parameters, and is 180 * offset when scale is 0 |
| DelayIndex.OffsetOfDelay | src/mixer2/delay_map/delay_map.cpp:92-104 | invert_scale times the delay, converted to int: the truncated delay with invert, minus the truncated delay without |
| DelayIndex.FrameOffset | src/mixer2/delay_map/delay_map.cpp:102-104 | the offset one map byte selects; for non-negative parameters it is at least 0 with invert and at most 0 without |
| DelayIndex.OffsetOfDelayMonotone | src/mixer2/delay_map/delay_map.cpp:92-104 | a longer delay gives a smaller offset without invert and a larger one with it |
| DelayIndex.FrameOffsetMagnitude | src/mixer2/delay_map/delay_map.cpp:92-104 | the frame offset is the scaled delay 180 * (scale * m / 255 + offset) truncated, with the sign of the direction |
| DelayIndex.InvertMirrors | src/mixer2/delay_map/delay_map.cpp:92-104 | toggling invert negates the frame offset exactly |
| DelayIndex.ZeroParamsZeroOffset | src/mixer2/delay_map/delay_map.cpp:102-104 | scale 0 and offset 0 give offset 0 for every map byte, with or without invert |
| DelayIndex.FrameOffsetRange | src/mixer2/delay_map/delay_map.cpp:101-104 | with scale, offset >= 0 and scale + offset <= 1, the offset is in [-180, 0] without invert and in [0, 180] with it |
| DelayIndex.ScaledDelayRange | src/mixer2/delay_map/delay_map.cpp:103-104 | with scale, offset >= 0 and scale + offset <= 1, the scaled delay lies in [0, 180] |
| DelayIndex.FrameOffsetMonotone | src/mixer2/delay_map/delay_map.cpp:101-104 | a brighter map byte never gives a larger offset without invert, nor a smaller one with it. This orders offsets, not frames: the slot wraps modulo 180 |
| DelayIndex.ScaledDelayMonotone | src/mixer2/delay_map/delay_map.cpp:103-104 | for a non-negative scale the scaled delay grows with the map byte |
| DelayIndex.ScaleByByte | src/mixer2/delay_map/delay_map.cpp:104 | scale * m / 255 lies in [0, scale] for a byte m |
| DelayIndex.BoundarySamples | src/mixer2/delay_map/delay_map.cpp:101-107 | with scale 1, offset 0 and no invert, map bytes 0 and 255 give offsets 0 and -180, and both select the cursor slot (the frame just submitted); byte 254 gives -179 and selects the slot after the cursor (the oldest frame); with invert, byte 2 gives offset 1 and selects that oldest slot too |
| DelayIndex.CRem | src/mixer2/delay_map/delay_map.cpp:107 | C's `%`: the dividend equals the truncated quotient times the divisor plus the remainder; the remainder is smaller in magnitude than the divisor and has the dividend's sign |
| DelayIndex.SlotIndex | src/mixer2/delay_map/delay_map.cpp:105-107 | the single modulo yields an index in (-capacity, capacity) |
| DelayIndex.SlotIndexAgainstRing | src/mixer2/delay_map/delay_map.cpp:105-107 | the slot is non-negative iff pre >= -capacity or pre is a multiple of capacity; it then equals the ring slot pre mod capacity, and otherwise that slot minus capacity |
| DelayIndex.SmallRingScenario | src/mixer2/delay_map/delay_map.cpp:105-107 | capacity 4, cursor 0, offset -2 reads slot 2 |
| DelayIndex.NegativeSlotExample | src/mixer2/delay_map/delay_map.cpp:105-107 | pre = -181 gives slot -1, while pre = -360 gives slot 0 |
| DelayIndex.CombinedIndex | src/mixer2/delay_map/delay_map.cpp:108 | the size_t index is below 2^64 and equals slot * imSz + p whenever that is in range |
| DelayIndex.GuardTripsIffNegative | src/mixer2/delay_map/delay_map.cpp:108-132 | for a slot in (-180, 180), the guard `combined_ind >= queue size` trips exactly when the slot is negative, and otherwise the index is slot * imSz + p |
| DelayIndex.ModUnique | src/mixer2/delay_map/delay_map.cpp:107 | a quotient and remainder in [0, c) that recompose x are x / c and x % c |
| DelayMap.FrameBytes | src/mixer2/delay_map/delay_map.cpp:81 | `im_sz = width_ * height_ * 4`, the bytes of one frame of 4-byte pixels; `FrameBytesShape` states its properties |
| DelayMap.FrameBytesShape | src/mixer2/delay_map/delay_map.cpp:71-81 | a frame is a whole number of 4-byte pixels, and is empty exactly when the width or the height is zero, the case the first early return catches |
| DelayMap.WriteThenRead | src/mixer2/delay_map/delay_map.cpp:81-83 | after the input is copied into slot k, slot k reads back the input |
| DelayMap.WriteKeepsOtherSlots | src/mixer2/delay_map/delay_map.cpp:81-83 | copying into slot k leaves every other slot unchanged |
| DelayMap.WriteSlot | src/mixer2/delay_map/delay_map.cpp:81-83 | the copy of the input into slot k keeps the history's length |
| DelayMap.SlotOf | src/mixer2/delay_map/delay_map.cpp:108 | slot k of the history is a frame of imSz bytes |
| DelayMap.SlotAt | src/mixer2/delay_map/delay_map.cpp:108 | byte p of slot k is history byte k * imSz + p |
| DelayMap.WriteSlotAt | src/mixer2/delay_map/delay_map.cpp:83 | after the copy, a history byte holds the input byte inside slot k and its old value outside |
| DelayMap.FirstTrip | src/mixer2/delay_map/delay_map.cpp:95-137 | the first output byte (in loop order) whose guard trips: no byte before it trips, and the byte at it does |
| DelayMap.FirstTripAt | src/mixer2/delay_map/delay_map.cpp:122-132 | a byte that trips after only non-tripping bytes is the first trip |
| DelayMap.FirstTripNone | src/mixer2/delay_map/delay_map.cpp:95-137 | when no byte trips, the first trip is the frame size |
| DelayMap.ComposedPrefix | src/mixer2/delay_map/delay_map.cpp:95-134 | the loop invariant: the output bytes written so far passed the guard and hold their selected history bytes |
| DelayMap.ComposedPrefixExtend | src/mixer2/delay_map/delay_map.cpp:122-134 | writing a non-tripping byte's selected history byte extends the composed prefix by one |
| DelayMap.SourceSlot | src/mixer2/delay_map/delay_map.cpp:102-107 | the slot a map byte selects lies in (-180, 180) |
| DelayMap.Trips | src/mixer2/delay_map/delay_map.cpp:108-122 | the bounds guard `combined_ind >= queue_.size()` for one output byte; `TripsIff` characterises when it holds |
| DelayMap.TripsIff | src/mixer2/delay_map/delay_map.cpp:102-132 | with the cursor in range, the guard trips iff pre < -180 and pre is not a multiple of 180; otherwise the byte comes from slot pre mod 180 |
| DelayMap.NeverTripsInRange | src/mixer2/delay_map/delay_map.cpp:92-132 | the guard never trips for non-negative parameters with invert set or scale + offset <= 1 |
| DelayMap.TripWithinUnitParams | src/mixer2/delay_map/delay_map.cpp:102-132 | scale 1 and offset 1, both inside [0, 1], still trip the guard for map byte 128 at cursor 0 |
| DelayMap.OutputReadsSlot | src/mixer2/delay_map/delay_map.cpp:83-134 | a non-tripping output byte reads the input byte when its slot is the cursor, and the stored slot's byte otherwise |
| DelayMap.PassThrough | src/mixer2/delay_map/delay_map.cpp:83-134 | with scale 0 and offset 0, nothing trips and every output byte equals the input byte |
| DelayMap.PassThroughAt | src/mixer2/delay_map/delay_map.cpp:83-134 | with scale 0 and offset 0, a single output byte does not trip and reads the input byte |
| DelayMap.HistoryKeptByWrite | src/mixer2/delay_map/delay_map.cpp:81-83 | the copy into the cursor slot preserves the history invariant |
| DelayMap.HistoryHolds | src/mixer2/delay_map/delay_map.cpp:82-83 | the invariant: each of the 179 newest submitted frames sits in the slot age + 1 places before the cursor |
| DelayMap.HistoryAdvanced | src/mixer2/delay_map/delay_map.cpp:83-139 | the copy followed by the cursor advance makes the input the newest frame of the history |
| DelayMap.HistoryAdvancedAt | src/mixer2/delay_map/delay_map.cpp:83-139 | after the copy and the advance, age a holds the frame of age a - 1 from before, and age 0 holds the input |
| DelayMap.FrameOfAge | src/mixer2/delay_map/delay_map.cpp:83-139 | after the copy and the advance, every age 0..179 that has been submitted holds the frame of that age |
| DelayMap.OldestAfterAdvance | src/mixer2/delay_map/delay_map.cpp:83-139 | age 179, the slot after the old cursor, is untouched by the copy and holds the frame of age 178 from before |
| DelayMap.AgeAfterAdvance | src/mixer2/delay_map/delay_map.cpp:138-139 | age a after the cursor advance is age a - 1 before it, and no age below 179 names the overwritten slot |
| DelayMap.AgeOfSlot | src/mixer2/delay_map/delay_map.cpp:105-139 | the slot at offset off from the old cursor is age (-off) mod 180 after the advance |
| DelayMap.ModShift | src/mixer2/delay_map/delay_map.cpp:107 | adding a multiple of 180 leaves the ring slot unchanged |
| DelayMap.OutputReadsHistory | src/mixer2/delay_map/delay_map.cpp:102-139 | after a completed update, output byte p holds byte p of the frame submitted (-offset) mod 180 updates ago, for every age 0..179 that has been submitted |
| DelayMap.CompletedOutputAges | src/mixer2/delay_map/delay_map.cpp:95-139 | when no byte trips, every output byte holds the byte of the frame of its age (-offset) mod 180, for every age 0..179 that has been submitted |
| DelayMap.OutputAges | src/mixer2/delay_map/delay_map.cpp:102-134 | output byte p holds byte p of the frame of age (-offset) mod 180, for every age the history holds |
| DelayMap.SlotBounds | src/mixer2/delay_map/delay_map.cpp:82 | slot k lies within the 180 * imSz history bytes |
| DelayMap.RowFits | src/mixer2/delay_map/delay_map.cpp:95-97 | every row's bytes lie within the frame |
| DelayMap.ColumnFits | src/mixer2/delay_map/delay_map.cpp:96-98 | every pixel's bytes lie within its row |
| DelayMap.StoreThenLoad | src/mixer2/delay_map/delay_map.cpp:205-239 | getting an index after setting it returns the value set, unclamped; the other indices are unchanged |
| DelayMap.OtherIndicesInert | src/mixer2/delay_map/delay_map.cpp:205-239 | setting an index outside 0..2 changes nothing, and getting one leaves the host's value as it was |
| DelayMap.StoreParam | src/mixer2/delay_map/delay_map.cpp:205-220 | setting index 0, 1 or 2 changes only the scale, offset or invert it names; other indices change nothing |
| DelayMap.LoadParam | src/mixer2/delay_map/delay_map.cpp:229-239 | getting an index outside 0..2 leaves the host's value; indices 0 and 1 give a double and index 2 a bool |
| DelayMap.DelayMapInstance.constructor | src/mixer2/delay_map/delay_map.cpp:39-56 | scale 1, offset 0, use color on, invert off, cursor 0, a zero-filled history of 180 * width * height * 4 bytes |
| DelayMap.DelayMapInstance.Skipped | src/mixer2/delay_map/delay_map.cpp:71-76 | the early-return condition of `update`: a zero width or height, or a null input, map or output |
| DelayMap.DelayMapInstance.Update | src/mixer2/delay_map/delay_map.cpp:63-140 | the early returns change nothing; otherwise the input goes into the cursor slot, output bytes before the first trip come from their selected slots and the rest are untouched, the cursor advances modulo 180 iff no byte tripped, and each output byte then holds byte p of the frame of its age (-offset) mod 180, for every age 0..179 |
| DelayMap.DelayMapInstance.StoreFrame | src/mixer2/delay_map/delay_map.cpp:81-83 | the history becomes the old history with the cursor slot replaced by the input |
| DelayMap.DelayMapInstance.ComposeFrame | src/mixer2/delay_map/delay_map.cpp:92-137 | output bytes before the first trip hold their selected history bytes, later ones keep their old values, and the result says whether no byte tripped |
| DelayMap.DelayMapInstance.SetParamValue | src/mixer2/delay_map/delay_map.cpp:199-221 | the parameters become StoreParam of the old ones: the value is stored unclamped, and only the named field changes |
| DelayMap.DelayMapInstance.GetParamValue | src/mixer2/delay_map/delay_map.cpp:223-240 | the result is the stored field, or the host's value for another index; setting the result back changes nothing |
| Screencap.Int32Of | src/generator/screencap/screencap.cpp:92 | the `int32_t a` a bit pattern holds: the pattern when the sign bit is clear, the pattern minus 2^32 when it is set |
| Screencap.ShiftRight31 | src/generator/screencap/screencap.cpp:93-95 | the arithmetic shift by 31 is 0 for non-negative values and all ones for negative values |
| Screencap.Clamp0255 | src/generator/screencap/screencap.cpp:91-96 | for every int32 from -2^31 + 256 up, the result is the value clamped to [0, 255] |
| Screencap.ClampCases | src/generator/screencap/screencap.cpp:92-96 | the value before the cast: a itself for 0..255, all ones above 255, zero for negatives from -2^31 + 256, all ones for the 256 lowest values |
| Screencap.NegatedSign | src/generator/screencap/screencap.cpp:93 | -a wraps: it is negative for 0 < a < 2^31 and non-negative for the negatives above INT32_MIN |
| Screencap.ClampInt | src/generator/screencap/screencap.cpp:91 | the integer clamp is in [0, 255] and is the identity there |
| Screencap.Clamp0255IsClamp | src/generator/screencap/screencap.cpp:91-96 | CLAMP0255 agrees with the integer clamp from -2^31 + 256 up |
| Screencap.Int32MinClampsHigh | src/generator/screencap/screencap.cpp:92-96 | under the modelled two's-complement wrap of the overflowing `-a` and `255 - a`, INT32_MIN gives 255, not 0 |
| Screencap.LowestValuesClampHigh | src/generator/screencap/screencap.cpp:92-96 | under the same modelled wrap, every value below -2^31 + 256 gives 255 |
| Screencap.Clamp0255Monotone | src/generator/screencap/screencap.cpp:92-96 | CLAMP0255 is monotone from -2^31 + 256 up |
| Screencap.Clamp01 | src/generator/screencap/screencap.cpp:180-183 | a coordinate is clamped into [0, 1]: kept inside, 0 below, 1 above |
| Screencap.Clamp01Idempotent | src/generator/screencap/screencap.cpp:180-189 | clamping twice is clamping once |
| Screencap.ScreencapInstance.constructor | src/generator/screencap/screencap.cpp:124-126 | the position starts as whatever the allocation held |
| Screencap.ScreencapInstance.SetParamValue | src/generator/screencap/screencap.cpp:170-195 | index 0 stores the position with each coordinate clamped to [0, 1]; other indices change nothing |
| Screencap.ScreencapInstance.GetParamValue | src/generator/screencap/screencap.cpp:197-207 | index 0 hands back the stored, clamped position; other indices leave the host's value alone |

## Left out

- Logging (`std::cout`, `std::cerr`, `LOG`), `f0r_init`, `f0r_deinit`, the plugin and parameter info tables, and `f0r_update2` are not modelled; they only print, describe or forward.
- The `#if 0` blocks and the `if (false)` copy-through in `update` are dead code and are not modelled.
- Doubles are modelled as mathematical reals: rounding of the products, NaN and infinities are not captured.
- The screencap setter stores each coordinate through a `float`; the model does not capture that narrowing.
- Conversion of an out-of-range double to int, and int overflow of `queue_start_ + offset`, are undefined behaviour in C++. The model uses unbounded integers there.
- The invert parameter: `ParamValue.Bool(b)` is the bool the setter reads. The source reads the first byte of the host's `f0r_param_bool`, which is a double (`*(bool *)param`). That reinterpretation of bytes is not modelled.
- DelayMap.StoreThenLoad: get after set returns the value set for index 2 only in terms of the bool the setter reads. In the source the host passes a double. On a little-endian machine the first byte of 1.0 is 0, so setting invert to 1.0 stores false, and getting it back writes 0.0 (delay_map.cpp:217, 237).
- DelayMap.DelayMapInstance.GetParamValue: "setting the result back changes nothing" holds for index 2 only for the bool the setter reads, for the same reason: the source writes invert back as a double, and reading that double's first byte again gives false.
- DelayMap.DelayMapInstance.constructor requires that the history of width * height * 4 * 180 bytes fits the largest `std::vector` (2^63 - 1 bytes). Larger sizes are not modelled. Between 2^63 - 1 and 2^64 bytes `resize` throws. At 2^64 bytes and above, the size_t product at delay_map.cpp:56 wraps first, so `resize` receives the wrapped size, and the later indexing no longer matches the frame size.
- DelayMap.DelayMapInstance.Update requires that the three frames are not the history itself and have the frame's length; the host supplies frames of width * height pixels.
- `use_color_` is stored by the constructor and never read or set, so it has no effect in the model.
- Screencap: the X11 display and screen handling, `malloc`/`free`, the image capture in `f0r_update`, and the pixel position `x`, `y` that the setter derives from the clamped coordinates are not modelled.
- Screencap.Clamp0255 states the clamp only from -2^31 + 256 up. Below that both `-a` and `255 - a` overflow int32 (undefined behaviour in C++). The model wraps them modulo 2^32, and `LowestValuesClampHigh` states the resulting 255.
- Screencap.ScreencapInstance.constructor takes the initial position as a parameter, because `f0r_construct` never initialises `tl_`.
