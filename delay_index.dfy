/** Delay index resolution of the delay_map mixer: how one byte of the map
    image becomes a slot of the frame history and a flat index into it, with
    the C++ integer semantics (truncating conversion, truncating `%`, size_t
    wrap-around) written out. */
module DelayIndex {

  /** Number of frame slots in the history (max_size_). */
  const MaxSize: int := 180
  /** Bytes per pixel (num_chan_). */
  const NumChan: int := 4
  /** size_t arithmetic is modulo 2^64. */
  const SizeTModulus: int := 0x1_0000_0000_0000_0000

  newtype Byte = x: int | 0 <= x < 256

  /** Conversion of a double to int: truncation toward zero. */
  function TruncToInt(x: real): (r: int)
    ensures 0.0 <= x ==> r as real <= x < r as real + 1.0
    ensures x < 0.0 ==> r as real - 1.0 < x <= r as real
  {
    if x >= 0.0 then x.Floor else -((-x).Floor)
  }

  lemma TruncNegate(x: real)
    ensures TruncToInt(-x) == -TruncToInt(x)
  {
  }

  lemma TruncMonotone(x: real, y: real)
    requires x <= y
    ensures TruncToInt(x) <= TruncToInt(y)
  {
  }

  /** The normalised delay scale * m / 255 + offset, scaled to frames. */
  function ScaledDelay(m: Byte, scale: real, offset: real): (d: real)
    ensures 0.0 <= scale && 0.0 <= offset ==> 0.0 <= d
    ensures scale == 0.0 ==> d == MaxSize as real * offset
  {
    MaxSize as real * (scale * m as real / 255.0 + offset)
  }

  /** The int conversion of invert_scale times a scaled delay: invert_scale
      is 1 when invert is set and -1 otherwise, so the product is d or -d. */
  function OffsetOfDelay(d: real, invert: bool): (r: int)
    ensures invert ==> r == TruncToInt(d)
    ensures !invert ==> r == -TruncToInt(d)
  {
    TruncNegate(d);
    if invert then TruncToInt(d) else TruncToInt(-d)
  }

  /** src_im_ind_offset: the signed frame offset read from one map byte. */
  function FrameOffset(m: Byte, scale: real, offset: real, invert: bool): (r: int)
    ensures 0.0 <= scale && 0.0 <= offset ==> (invert ==> 0 <= r) && (!invert ==> r <= 0)
  {
    OffsetOfDelay(ScaledDelay(m, scale, offset), invert)
  }

  /** A longer delay gives a smaller offset without invert and a larger one
      with it. */
  lemma OffsetOfDelayMonotone(d1: real, d2: real)
    requires d1 <= d2
    ensures OffsetOfDelay(d2, false) <= OffsetOfDelay(d1, false)
    ensures OffsetOfDelay(d1, true) <= OffsetOfDelay(d2, true)
  {
    TruncMonotone(d1, d2);
  }

  /** The offset is the scaled delay truncated toward zero, negated without
      invert: its magnitude never exceeds the scaled delay's. */
  lemma FrameOffsetMagnitude(m: Byte, scale: real, offset: real, invert: bool)
    ensures var d := ScaledDelay(m, scale, offset);
            var r := if invert then FrameOffset(m, scale, offset, invert) else -FrameOffset(m, scale, offset, invert);
            (0.0 <= d ==> r as real <= d < r as real + 1.0) &&
            (d < 0.0 ==> r as real - 1.0 < d <= r as real)
  {
  }

  /** Toggling invert mirrors the offset exactly. */
  lemma InvertMirrors(m: Byte, scale: real, offset: real)
    ensures FrameOffset(m, scale, offset, true) == -FrameOffset(m, scale, offset, false)
  {
    TruncNegate(ScaledDelay(m, scale, offset));
  }

  /** scale 0 and offset 0 select offset 0 for every map byte. */
  lemma ZeroParamsZeroOffset(m: Byte, invert: bool)
    ensures FrameOffset(m, 0.0, 0.0, invert) == 0
  {
  }

  /** With scale and offset in the documented range and scale + offset <= 1,
      the offset lies within one history length, on the side of the direction. */
  lemma FrameOffsetRange(m: Byte, scale: real, offset: real, invert: bool)
    requires 0.0 <= scale && 0.0 <= offset && scale + offset <= 1.0
    ensures invert ==> 0 <= FrameOffset(m, scale, offset, true) <= MaxSize
    ensures !invert ==> -MaxSize <= FrameOffset(m, scale, offset, false) <= 0
  {
    ScaledDelayRange(m, scale, offset);
    var d := ScaledDelay(m, scale, offset);
    TruncNegate(d);
    TruncMonotone(d, MaxSize as real);
  }

  /** For parameters with scale + offset <= 1 the scaled delay is at most one
      history length. */
  lemma ScaledDelayRange(m: Byte, scale: real, offset: real)
    requires 0.0 <= scale && 0.0 <= offset && scale + offset <= 1.0
    ensures 0.0 <= ScaledDelay(m, scale, offset) <= MaxSize as real
  {
    ScaleByByte(scale, m);
    var u := scale * m as real / 255.0 + offset;
    assert u <= scale + offset;
    assert 0.0 <= u <= 1.0;
    assert ScaledDelay(m, scale, offset) == MaxSize as real * u;
  }

  /** A brighter map byte never gives a larger offset without invert, nor a
      smaller one with it. This orders offsets, not frames: the slot wraps
      modulo MaxSize, so the offset -MaxSize lands on the cursor again (see
      BoundarySamples). */
  lemma FrameOffsetMonotone(m1: Byte, m2: Byte, scale: real, offset: real)
    requires m1 <= m2 && 0.0 <= scale
    ensures FrameOffset(m2, scale, offset, false) <= FrameOffset(m1, scale, offset, false)
    ensures FrameOffset(m1, scale, offset, true) <= FrameOffset(m2, scale, offset, true)
  {
    ScaledDelayMonotone(m1, m2, scale, offset);
    var d1, d2 := ScaledDelay(m1, scale, offset), ScaledDelay(m2, scale, offset);
    OffsetOfDelayMonotone(d1, d2);
  }

  /** The scaled delay grows with the map byte for a non-negative scale. */
  lemma ScaledDelayMonotone(m1: Byte, m2: Byte, scale: real, offset: real)
    requires m1 <= m2 && 0.0 <= scale
    ensures ScaledDelay(m1, scale, offset) <= ScaledDelay(m2, scale, offset)
  {
    ScaleByByte(scale, m2 - m1);
    assert scale * m2 as real == scale * m1 as real + scale * (m2 - m1) as real;
  }

  /** A non-negative scale times a map byte over 255 lies in [0, scale]. */
  lemma ScaleByByte(scale: real, m: Byte)
    requires 0.0 <= scale
    ensures 0.0 <= scale * m as real / 255.0 <= scale
  {
    var f := m as real / 255.0;
    assert 0.0 <= f <= 1.0;
    assert scale * m as real / 255.0 == scale * f;
    assert scale * f <= scale * 1.0;
  }

  /** With scale 1, offset 0 and no invert, map bytes 0 and 255 give the
      offsets 0 and -MaxSize, and both select the cursor slot, which holds the
      frame just submitted; byte 254 gives -179 and selects the slot after
      the cursor, the oldest frame. With invert, byte 2 already reaches that
      oldest slot. */
  lemma BoundarySamples(queueStart: int)
    requires 0 <= queueStart < MaxSize
    ensures FrameOffset(0, 1.0, 0.0, false) == 0
    ensures FrameOffset(255, 1.0, 0.0, false) == -MaxSize
    ensures FrameOffset(254, 1.0, 0.0, false) == -(MaxSize - 1)
    ensures FrameOffset(2, 1.0, 0.0, true) == 1
    ensures SlotIndex(queueStart, FrameOffset(0, 1.0, 0.0, false), MaxSize) == queueStart
    ensures SlotIndex(queueStart, FrameOffset(255, 1.0, 0.0, false), MaxSize) == queueStart
    ensures SlotIndex(queueStart, FrameOffset(254, 1.0, 0.0, false), MaxSize) == (queueStart + 1) % MaxSize
    ensures SlotIndex(queueStart, FrameOffset(2, 1.0, 0.0, true), MaxSize) == (queueStart + 1) % MaxSize
  {
    assert ScaledDelay(255, 1.0, 0.0) == 180.0;
    assert ScaledDelay(254, 1.0, 0.0) == 180.0 * 254.0 / 255.0;
    assert ScaledDelay(2, 1.0, 0.0) == 180.0 * 2.0 / 255.0;
    SlotIndexAgainstRing(queueStart, 0, MaxSize);
    SlotIndexAgainstRing(queueStart, -MaxSize, MaxSize);
    SlotIndexAgainstRing(queueStart, -(MaxSize - 1), MaxSize);
    SlotIndexAgainstRing(queueStart, 1, MaxSize);
  }

  /** The int `/` operator: truncates toward zero. */
  function CQuot(a: int, b: int): int
    requires b > 0
  {
    if a >= 0 then a / b else -((-a) / b)
  }

  /** The int `%` operator: the remainder of the truncating division, so it
      takes the sign of the dividend. */
  function CRem(a: int, b: int): (r: int)
    requires b > 0
    ensures a == CQuot(a, b) * b + r
    ensures -b < r < b
    ensures a >= 0 ==> r >= 0
    ensures a <= 0 ==> r <= 0
  {
    if a >= 0 then a % b else -((-a) % b)
  }

  /** src_im_ind: the single `(capacity + pre) % capacity` with pre the cursor
      plus the offset. */
  function SlotIndex(queueStart: int, rawOffset: int, capacity: int): (r: int)
    requires capacity > 0
    ensures -capacity < r < capacity
  {
    CRem(capacity + (queueStart + rawOffset), capacity)
  }

  /** Against the ring-buffer slot (queueStart + rawOffset) mod capacity: the
      single modulo agrees with it exactly when pre >= -capacity or pre is a
      multiple of the capacity, and is otherwise that slot minus the capacity,
      a negative index. */
  lemma SlotIndexAgainstRing(queueStart: int, rawOffset: int, capacity: int)
    requires capacity > 0
    ensures var pre := queueStart + rawOffset;
            (SlotIndex(queueStart, rawOffset, capacity) >= 0 <==> pre >= -capacity || pre % capacity == 0)
    ensures var pre := queueStart + rawOffset;
            SlotIndex(queueStart, rawOffset, capacity) ==
              if pre >= -capacity || pre % capacity == 0 then pre % capacity
              else pre % capacity - capacity
  {
    var pre := queueStart + rawOffset;
    var a := capacity + pre;
    var r := SlotIndex(queueStart, rawOffset, capacity);
    var q := CQuot(a, capacity);
    assert a == q * capacity + r;
    if a >= 0 {
      ModUnique(pre, q - 1, r, capacity);
    } else if r == 0 {
      ModUnique(pre, q - 1, 0, capacity);
    } else {
      ModUnique(pre, q - 2, r + capacity, capacity);
    }
  }

  /** Euclidean division is determined by quotient and remainder. */
  lemma ModUnique(x: int, q: int, r: int, c: int)
    requires c > 0 && 0 <= r < c && x == q * c + r
    ensures x % c == r && x / c == q
  {
    var q', r' := x / c, x % c;
    assert (q - q') * c == r' - r;
    if q > q' {
      MulLe(1, q - q', c);
    } else if q < q' {
      MulLe(1, q' - q, c);
    }
  }

  /** A small ring: capacity 4, cursor 0 after four writes, offset -2 reads
      slot 2. */
  lemma SmallRingScenario()
    ensures SlotIndex(0, -2, 4) == 2
  {
  }

  /** A history read one frame further back than the capacity allows yields a
      negative slot. */
  lemma NegativeSlotExample()
    ensures SlotIndex(0, -181, MaxSize) == -1
    ensures SlotIndex(0, -360, MaxSize) == 0
  {
  }

  /** combined_ind: the int slot is converted to size_t, so the product and
      sum wrap modulo 2^64. */
  function CombinedIndex(slot: int, imSz: nat, p: nat): (r: nat)
    ensures r < SizeTModulus
    ensures 0 <= slot * imSz + p < SizeTModulus ==> r == slot * imSz + p
  {
    (slot * imSz + p) % SizeTModulus
  }

  /** The bounds guard `combined_ind >= queue size` trips exactly for the
      negative slots, provided the history fits in half the address space. */
  lemma GuardTripsIffNegative(slot: int, imSz: nat, p: nat)
    requires -MaxSize < slot < MaxSize && p < imSz
    requires 2 * (MaxSize * imSz) <= SizeTModulus
    ensures CombinedIndex(slot, imSz, p) >= MaxSize * imSz <==> slot < 0
    ensures slot >= 0 ==> CombinedIndex(slot, imSz, p) == slot * imSz + p
  {
    if slot >= 0 {
      MulLe(slot + 1, MaxSize, imSz);
      assert slot * imSz + p < MaxSize * imSz;
    } else {
      MulLe(-slot, MaxSize - 1, imSz);
      assert -slot * imSz <= (MaxSize - 1) * imSz;
      var v := slot * imSz + p;
      assert -(MaxSize * imSz) < v < 0;
      assert CombinedIndex(slot, imSz, p) == v + SizeTModulus;
    }
  }

  lemma MulLe(a: int, b: int, c: nat)
    requires a <= b
    ensures a * c <= b * c
  {
  }
}
