/** The screencap source: the branch-free byte clamp CLAMP0255 on 32-bit
    two's-complement integers, and the position parameter, whose coordinates
    are clamped to [0, 1] when set. */
module Screencap {

  /** 2^32: int32_t values are their bit patterns read modulo 2^32. */
  const TwoTo32: int := 0x1_0000_0000

  /** The int32_t whose bit pattern is v: the pattern itself when the sign
      bit is clear, and the pattern minus 2^32 when it is set. */
  function Int32Of(v: bv32): int
  {
    if v < 0x8000_0000 then v as int else v as int - TwoTo32
  }

  /** `>> 31` on an int32_t: an arithmetic shift (bv32's `>>` is logical),
      so the sign bit is copied into every bit. */
  function ShiftRight31(v: bv32): (r: bv32)
    ensures v < 0x8000_0000 ==> r == 0
    ensures v >= 0x8000_0000 ==> r == 0xFFFF_FFFF
  {
    if v >= 0x8000_0000 then !(!v >> 31) else v >> 31
  }

  /** CLAMP0255: ((-a >> 31) & a) | ((255 - a) >> 31), cast to unsigned char.
      The model wraps the negation and the subtraction modulo 2^32; in C++
      their overflow is undefined. */
  function Clamp0255(a: bv32): (r: bv8)
    ensures Int32Of(a) >= -0x8000_0000 + 256 ==>
              r as int == if Int32Of(a) < 0 then 0 else if Int32Of(a) > 255 then 255 else Int32Of(a)
  {
    ClampCases(a);
    var t := (ShiftRight31(-a) & a) | ShiftRight31(255 - a);
    (t & 0xFF) as bv8
  }

  /** The four cases of CLAMP0255 on the bit pattern: 0..255 kept, larger
      positives 255, negatives from -2^31 + 256 on 0, the 256 lowest values
      255 (both the negation and 255 - a overflow there). */
  lemma ClampCases(a: bv32)
    ensures var t := (ShiftRight31(-a) & a) | ShiftRight31(255 - a);
            (a < 256 ==> t == a) &&
            (256 <= a < 0x8000_0000 ==> t == 0xFFFF_FFFF) &&
            (0x8000_0100 <= a ==> t == 0) &&
            (0x8000_0000 <= a < 0x8000_0100 ==> t == 0xFFFF_FFFF)
  {
    var lo := ShiftRight31(-a);
    var hi := ShiftRight31(255 - a);
    if a < 256 {
      if a != 0 {
        NegatedSign(a);
        assert lo == 0xFFFF_FFFF;
      }
      assert lo & a == a;
      assert hi == 0;
    } else if a < 0x8000_0000 {
      NegatedSign(a);
      assert 255 - a >= 0x8000_0000;
      assert hi == 0xFFFF_FFFF;
    } else if 0x8000_0100 <= a {
      NegatedSign(a);
      assert lo == 0;
      assert 255 - a < 0x8000_0000;
      assert hi == 0;
    } else {
      assert 255 - a >= 0x8000_0000;
      assert hi == 0xFFFF_FFFF;
    }
  }

  /** -a wraps: it is negative for 1 <= a < 2^31 and non-negative for the
      negatives above INT32_MIN. */
  lemma NegatedSign(a: bv32)
    ensures 0 < a < 0x8000_0000 ==> -a >= 0x8000_0000
    ensures 0x8000_0000 < a ==> -a < 0x8000_0000
  {
  }

  /** The reference clamp on integers. */
  function ClampInt(a: int): (r: int)
    ensures 0 <= r <= 255
    ensures 0 <= a <= 255 ==> r == a
  {
    if a < 0 then 0 else if a > 255 then 255 else a
  }

  /** Over its defined domain CLAMP0255 is the integer clamp. */
  lemma Clamp0255IsClamp(a: bv32)
    requires Int32Of(a) >= -0x8000_0000 + 256
    ensures Clamp0255(a) as int == ClampInt(Int32Of(a))
  {
  }

  /** INT32_MIN clamps to 255, not 0: -a and 255 - a overflow. */
  lemma Int32MinClampsHigh()
    ensures Int32Of(0x8000_0000) == -0x8000_0000
    ensures Clamp0255(0x8000_0000) == 255
  {
    ClampCases(0x8000_0000);
  }

  /** Below -2^31 + 256 every value clamps to 255. */
  lemma LowestValuesClampHigh(a: bv32)
    requires Int32Of(a) < -0x8000_0000 + 256
    ensures Clamp0255(a) == 255
  {
    ClampCases(a);
  }

  /** CLAMP0255 is monotone over its defined domain. */
  lemma Clamp0255Monotone(a: bv32, b: bv32)
    requires -0x8000_0000 + 256 <= Int32Of(a) <= Int32Of(b)
    ensures Clamp0255(a) as int <= Clamp0255(b) as int
  {
    Clamp0255IsClamp(a);
    Clamp0255IsClamp(b);
    ClampIntMonotone(Int32Of(a), Int32Of(b));
  }

  lemma ClampIntMonotone(x: int, y: int)
    requires x <= y
    ensures ClampInt(x) <= ClampInt(y)
  {
  }

  /** An f0r_param_position_t. */
  datatype Position = Position(x: real, y: real)

  /** The clamp of one coordinate in f0r_set_param_value. */
  function Clamp01(v: real): (r: real)
    ensures 0.0 <= r <= 1.0
    ensures 0.0 <= v <= 1.0 ==> r == v
    ensures v < 0.0 ==> r == 0.0
    ensures v > 1.0 ==> r == 1.0
  {
    if v < 0.0 then 0.0 else if v > 1.0 then 1.0 else v
  }

  /** Clamping twice is clamping once: setting the position the host got
      back changes nothing. */
  lemma Clamp01Idempotent(v: real)
    ensures Clamp01(Clamp01(v)) == Clamp01(v)
  {
  }

  /** The screencap instance's position state. */
  class ScreencapInstance {
    /** tl_: the last position set, clamped. */
    var tl: Position

    /** f0r_construct leaves tl_ as malloc returned it: any value. */
    constructor (initial: Position)
      ensures tl == initial
    {
      tl := initial;
    }

    /** f0r_set_param_value: index 0 stores the position with each
        coordinate clamped to [0, 1]; other indices do nothing. */
    method SetParamValue(param: Position, index: int)
      modifies this
      ensures index == 0 ==> tl == Position(Clamp01(param.x), Clamp01(param.y))
      ensures index == 0 ==> 0.0 <= tl.x <= 1.0 && 0.0 <= tl.y <= 1.0
      ensures index != 0 ==> tl == old(tl)
    {
      if index == 0 {
        tl := param;
        var val: real;
        val := tl.x;
        if val < 0.0 {
          val := 0.0;
        }
        if val > 1.0 {
          val := 1.0;
        }
        tl := tl.(x := val);
        val := tl.y;
        if val < 0.0 {
          val := 0.0;
        }
        if val > 1.0 {
          val := 1.0;
        }
        tl := tl.(y := val);
      }
    }

    /** f0r_get_param_value: `param` is the host's value before the call,
        `r` after; index 0 hands back the stored position. */
    method GetParamValue(param: Position, index: int) returns (r: Position)
      ensures index == 0 ==> r == tl
      ensures index != 0 ==> r == param
    {
      r := param;
      if index == 0 {
        r := tl;
      }
    }
  }
}
