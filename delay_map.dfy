/** The delay_map mixer instance: MaxSize past frames kept in one flat byte
    vector with a cursor, and the compositor that, for every output byte,
    reads the matching byte of a map image, turns it into a frame offset and
    copies the byte from that many frames back. */
module DelayMap {
  import opened DelayIndex

  /** The parameters the compositor reads. */
  datatype Params = Params(scale: real, offset: real, invert: bool)

  /** A host parameter value: an f0r_param_double, or the bool read from an
      f0r_param_bool. */
  datatype ParamValue = Double(d: real) | Bool(b: bool)

  /** PTRDIFF_MAX: the largest size a std::vector<unsigned char> accepts. */
  const VectorMaxSize: int := 0x7FFF_FFFF_FFFF_FFFF

  /** Bytes in one frame: width * height pixels of NumChan bytes. */
  function FrameBytes(width: nat, height: nat): nat
  {
    width * height * NumChan
  }

  /** A frame is a whole number of pixels, and is empty exactly when the
      width or the height is zero. */
  lemma FrameBytesShape(width: nat, height: nat)
    ensures FrameBytes(width, height) == 0 <==> width == 0 || height == 0
    ensures FrameBytes(width, height) % NumChan == 0
  {
  }

  // ---------------------------------------------------------------------
  // The history vector as MaxSize slots of imSz bytes

  /** Slot k of the history: bytes [k * imSz, (k + 1) * imSz). */
  function SlotOf(q: seq<Byte>, k: int, imSz: nat): (f: seq<Byte>)
    requires 0 <= k < MaxSize && |q| == MaxSize * imSz
    ensures |f| == imSz
  {
    SlotBounds(k, imSz);
    q[k * imSz .. k * imSz + imSz]
  }

  lemma SlotAt(q: seq<Byte>, k: int, imSz: nat, p: int)
    requires 0 <= k < MaxSize && |q| == MaxSize * imSz && 0 <= p < imSz
    ensures 0 <= k * imSz + p < |q| && SlotOf(q, k, imSz)[p] == q[k * imSz + p]
  {
    SlotBounds(k, imSz);
  }

  /** The std::copy of a frame into slot k. */
  function WriteSlot(q: seq<Byte>, k: int, frame: seq<Byte>): (r: seq<Byte>)
    requires 0 <= k < MaxSize && |q| == MaxSize * |frame|
    ensures |r| == |q|
  {
    SlotBounds(k, |frame|);
    q[.. k * |frame|] + frame + q[k * |frame| + |frame| ..]
  }

  /** Bytes of slot k come from the frame, every other byte is kept. */
  lemma WriteSlotAt(q: seq<Byte>, k: int, frame: seq<Byte>, j: int)
    requires 0 <= k < MaxSize && |q| == MaxSize * |frame| && 0 <= j < |q|
    ensures 0 <= k * |frame| && k * |frame| + |frame| <= |q|
    ensures WriteSlot(q, k, frame)[j] ==
              if k * |frame| <= j < k * |frame| + |frame| then frame[j - k * |frame|] else q[j]
  {
    SlotBounds(k, |frame|);
  }

  /** Reading back the slot just written returns the frame. */
  lemma WriteThenRead(q: seq<Byte>, k: int, frame: seq<Byte>)
    requires 0 <= k < MaxSize && |q| == MaxSize * |frame|
    ensures SlotOf(WriteSlot(q, k, frame), k, |frame|) == frame
  {
    var w := WriteSlot(q, k, frame);
    var f := SlotOf(w, k, |frame|);
    forall p | 0 <= p < |frame|
      ensures f[p] == frame[p]
    {
      SlotAt(w, k, |frame|, p);
      WriteSlotAt(q, k, frame, k * |frame| + p);
    }
  }

  /** Writing slot k leaves every other slot as it was. */
  lemma WriteKeepsOtherSlots(q: seq<Byte>, k: int, j: int, frame: seq<Byte>)
    requires 0 <= k < MaxSize && 0 <= j < MaxSize && j != k
    requires |q| == MaxSize * |frame|
    ensures SlotOf(WriteSlot(q, k, frame), j, |frame|) == SlotOf(q, j, |frame|)
  {
    var n := |frame|;
    var w := WriteSlot(q, k, frame);
    SlotBounds(j, n);
    SlotBounds(k, n);
    if j < k {
      MulLe(j + 1, k, n);
    } else {
      MulLe(k + 1, j, n);
    }
    forall p | 0 <= p < n
      ensures SlotOf(w, j, n)[p] == SlotOf(q, j, n)[p]
    {
      SlotAt(w, j, n, p);
      SlotAt(q, j, n, p);
      WriteSlotAt(q, k, frame, j * n + p);
    }
  }

  /** Slot k occupies [k * imSz, k * imSz + imSz) within MaxSize * imSz bytes. */
  lemma SlotBounds(k: int, imSz: nat)
    requires 0 <= k < MaxSize
    ensures 0 <= k * imSz && (k + 1) * imSz == k * imSz + imSz
    ensures (k + 1) * imSz <= MaxSize * imSz
  {
    MulLe(k + 1, MaxSize, imSz);
  }

  // ---------------------------------------------------------------------
  // Per-byte source selection and the bounds guard

  /** src_im_ind for one map byte, with the cursor at queueStart. */
  function SourceSlot(queueStart: int, m: Byte, s: Params): (r: int)
    ensures -MaxSize < r < MaxSize
  {
    SlotIndex(queueStart, FrameOffset(m, s.scale, s.offset, s.invert), MaxSize)
  }

  /** The bounds guard `combined_ind >= queue_.size()` for output byte p. */
  predicate Trips(queueStart: int, m: Byte, p: nat, imSz: nat, queueLen: nat, s: Params)
  {
    CombinedIndex(SourceSlot(queueStart, m, s), imSz, p) >= queueLen
  }

  /** The first output byte at or after `from` whose guard trips, or |mapImage|
      when none does. */
  function FirstTrip(mapImage: seq<Byte>, from: nat, queueStart: int, imSz: nat, queueLen: nat, s: Params): (k: nat)
    requires from <= |mapImage|
    ensures from <= k <= |mapImage|
    ensures forall p :: from <= p < k ==> !Trips(queueStart, mapImage[p], p, imSz, queueLen, s)
    ensures k < |mapImage| ==> Trips(queueStart, mapImage[k], k, imSz, queueLen, s)
    decreases |mapImage| - from
  {
    if from == |mapImage| then from
    else if Trips(queueStart, mapImage[from], from, imSz, queueLen, s) then from
    else FirstTrip(mapImage, from + 1, queueStart, imSz, queueLen, s)
  }

  /** With the cursor in range, the guard trips exactly when pre = cursor +
      offset is below -MaxSize and not a multiple of MaxSize; otherwise the
      byte is read from slot (cursor + offset) mod MaxSize. */
  lemma TripsIff(queueStart: int, m: Byte, p: nat, imSz: nat, s: Params)
    requires 0 <= queueStart < MaxSize && p < imSz
    requires 2 * (MaxSize * imSz) <= SizeTModulus
    ensures var pre := queueStart + FrameOffset(m, s.scale, s.offset, s.invert);
            Trips(queueStart, m, p, imSz, MaxSize * imSz, s) <==> pre < -MaxSize && pre % MaxSize != 0
    ensures var pre := queueStart + FrameOffset(m, s.scale, s.offset, s.invert);
            !Trips(queueStart, m, p, imSz, MaxSize * imSz, s) ==>
              SourceSlot(queueStart, m, s) == pre % MaxSize &&
              CombinedIndex(SourceSlot(queueStart, m, s), imSz, p) == (pre % MaxSize) * imSz + p
  {
    var off := FrameOffset(m, s.scale, s.offset, s.invert);
    SlotIndexAgainstRing(queueStart, off, MaxSize);
    GuardTripsIffNegative(SourceSlot(queueStart, m, s), imSz, p);
  }

  /** With non-negative parameters the guard never trips, as long as the
      offsets point forward (invert) or scale + offset stays within 1. */
  lemma NeverTripsInRange(queueStart: int, m: Byte, p: nat, imSz: nat, s: Params)
    requires 0 <= queueStart < MaxSize && p < imSz
    requires 2 * (MaxSize * imSz) <= SizeTModulus
    requires 0.0 <= s.scale && 0.0 <= s.offset
    requires s.invert || s.scale + s.offset <= 1.0
    ensures !Trips(queueStart, m, p, imSz, MaxSize * imSz, s)
  {
    TripsIff(queueStart, m, p, imSz, s);
    if s.invert {
      ScaleByByte(s.scale, m);
    } else {
      FrameOffsetRange(m, s.scale, s.offset, false);
    }
  }

  /** scale 1 and offset 1 are both inside [0, 1], yet a mid-grey map byte
      at cursor 0 trips the guard: the offset is -270, and (180 - 270) % 180
      is -90. */
  lemma TripWithinUnitParams(imSz: nat)
    requires 1 <= imSz && 2 * (MaxSize * imSz) <= SizeTModulus
    ensures Trips(0, 128, 0, imSz, MaxSize * imSz, Params(1.0, 1.0, false))
  {
    var s := Params(1.0, 1.0, false);
    assert ScaledDelay(128, 1.0, 1.0) == 180.0 * (128.0 / 255.0 + 1.0);
    assert FrameOffset(128, 1.0, 1.0, false) == -270;
    TripsIff(0, 128, 0, imSz, s);
  }

  /** An output byte whose guard does not trip reads slot SourceSlot of the
      history after the write: the frame just submitted when that slot is the
      cursor, the stored frame otherwise. */
  lemma OutputReadsSlot(q: seq<Byte>, queueStart: int, input: seq<Byte>, m: Byte, p: nat, s: Params)
    requires 0 <= queueStart < MaxSize && p < |input|
    requires |q| == MaxSize * |input| && 2 * |q| <= SizeTModulus
    requires !Trips(queueStart, m, p, |input|, |q|, s)
    ensures var slot := SourceSlot(queueStart, m, s);
            0 <= slot < MaxSize &&
            WriteSlot(q, queueStart, input)[CombinedIndex(slot, |input|, p)] ==
              if slot == queueStart then input[p] else SlotOf(q, slot, |input|)[p]
  {
    var n := |input|;
    var slot := SourceSlot(queueStart, m, s);
    TripsIff(queueStart, m, p, n, s);
    GuardTripsIffNegative(slot, n, p);
    var w := WriteSlot(q, queueStart, input);
    SlotAt(w, slot, n, p);
    SlotAt(q, slot, n, p);
    if slot == queueStart {
      WriteThenRead(q, queueStart, input);
    } else {
      WriteKeepsOtherSlots(q, queueStart, slot, input);
    }
  }

  /** Pass-through: with scale 0 and offset 0 no guard trips and every output
      byte is the byte just submitted. */
  lemma PassThrough(q: seq<Byte>, queueStart: int, input: seq<Byte>, mapImage: seq<Byte>, invert: bool)
    requires 0 <= queueStart < MaxSize && |mapImage| == |input|
    requires |q| == MaxSize * |input| && 2 * |q| <= SizeTModulus
    ensures var s := Params(0.0, 0.0, invert);
            FirstTrip(mapImage, 0, queueStart, |input|, |q|, s) == |input| &&
            forall p :: 0 <= p < |input| ==>
              WriteSlot(q, queueStart, input)[CombinedIndex(SourceSlot(queueStart, mapImage[p], s), |input|, p)] == input[p]
  {
    var s := Params(0.0, 0.0, invert);
    forall p | 0 <= p < |input|
      ensures !Trips(queueStart, mapImage[p], p, |input|, |q|, s)
      ensures WriteSlot(q, queueStart, input)[CombinedIndex(SourceSlot(queueStart, mapImage[p], s), |input|, p)] == input[p]
    {
      PassThroughAt(q, queueStart, input, mapImage[p], p, invert);
    }
    FirstTripNone(mapImage, queueStart, |input|, |q|, s);
  }

  /** One byte of PassThrough. */
  lemma PassThroughAt(q: seq<Byte>, queueStart: int, input: seq<Byte>, m: Byte, p: nat, invert: bool)
    requires 0 <= queueStart < MaxSize && p < |input|
    requires |q| == MaxSize * |input| && 2 * |q| <= SizeTModulus
    ensures var s := Params(0.0, 0.0, invert);
            !Trips(queueStart, m, p, |input|, |q|, s) &&
            WriteSlot(q, queueStart, input)[CombinedIndex(SourceSlot(queueStart, m, s), |input|, p)] == input[p]
  {
    var s := Params(0.0, 0.0, invert);
    ZeroParamsZeroOffset(m, invert);
    assert FrameOffset(m, 0.0, 0.0, invert) == 0;
    assert SourceSlot(queueStart, m, s) == queueStart;
    NeverTripsInRange(queueStart, m, p, |input|, s);
    OutputReadsSlot(q, queueStart, input, m, p, s);
  }

  // ---------------------------------------------------------------------
  // The history invariant

  /** recent[a] is the frame submitted a completed updates ago; each of the
      MaxSize - 1 newest sits in the slot a + 1 places before the cursor (the
      cursor's own slot is the next to be overwritten). */
  ghost predicate HistoryHolds(q: seq<Byte>, queueStart: int, imSz: nat, recent: seq<seq<Byte>>)
    requires 0 <= queueStart < MaxSize && |q| == MaxSize * imSz
  {
    (forall a :: 0 <= a < |recent| ==> |recent[a]| == imSz) &&
    (forall a :: 0 <= a < |recent| && a < MaxSize - 1 ==>
       SlotOf(q, (queueStart + MaxSize - 1 - a) % MaxSize, imSz) == recent[a])
  }

  /** A write into the cursor slot keeps the history as it was. */
  lemma HistoryKeptByWrite(q: seq<Byte>, queueStart: int, frame: seq<Byte>, recent: seq<seq<Byte>>)
    requires 0 <= queueStart < MaxSize && |q| == MaxSize * |frame|
    requires HistoryHolds(q, queueStart, |frame|, recent)
    ensures HistoryHolds(WriteSlot(q, queueStart, frame), queueStart, |frame|, recent)
  {
    forall a | 0 <= a < |recent| && a < MaxSize - 1
      ensures SlotOf(WriteSlot(q, queueStart, frame), (queueStart + MaxSize - 1 - a) % MaxSize, |frame|) == recent[a]
    {
      WriteKeepsOtherSlots(q, queueStart, (queueStart + MaxSize - 1 - a) % MaxSize, frame);
    }
  }

  /** A write into the cursor slot followed by the cursor advance makes the
      frame the newest of the history. */
  lemma HistoryAdvanced(q: seq<Byte>, queueStart: int, frame: seq<Byte>, recent: seq<seq<Byte>>)
    requires 0 <= queueStart < MaxSize && |q| == MaxSize * |frame|
    requires HistoryHolds(q, queueStart, |frame|, recent)
    ensures HistoryHolds(WriteSlot(q, queueStart, frame), (queueStart + 1) % MaxSize, |frame|, [frame] + recent)
  {
    var w := WriteSlot(q, queueStart, frame);
    var next := (queueStart + 1) % MaxSize;
    var r := [frame] + recent;
    forall a | 0 <= a < |r| && a < MaxSize - 1
      ensures SlotOf(w, (next + MaxSize - 1 - a) % MaxSize, |frame|) == r[a]
    {
      HistoryAdvancedAt(q, queueStart, frame, recent, a);
    }
  }

  lemma HistoryAdvancedAt(q: seq<Byte>, queueStart: int, frame: seq<Byte>, recent: seq<seq<Byte>>, a: int)
    requires 0 <= queueStart < MaxSize && |q| == MaxSize * |frame|
    requires HistoryHolds(q, queueStart, |frame|, recent)
    requires 0 <= a < |recent| + 1 && a < MaxSize - 1
    ensures SlotOf(WriteSlot(q, queueStart, frame), (((queueStart + 1) % MaxSize) + MaxSize - 1 - a) % MaxSize, |frame|)
            == ([frame] + recent)[a]
  {
    AgeAfterAdvance(queueStart, a);
    if a == 0 {
      WriteThenRead(q, queueStart, frame);
    } else {
      var k := (queueStart + MaxSize - 1 - (a - 1)) % MaxSize;
      WriteKeepsOtherSlots(q, queueStart, k, frame);
      assert SlotOf(q, k, |frame|) == recent[a - 1];
    }
  }

  /** Age a after the cursor advance is age a - 1 before it; age 0 is the
      old cursor, and no age below MaxSize - 1 is the old cursor's slot. */
  lemma AgeAfterAdvance(queueStart: int, a: int)
    requires 0 <= queueStart < MaxSize && 0 <= a < MaxSize - 1
    ensures (((queueStart + 1) % MaxSize) + MaxSize - 1 - a) % MaxSize ==
            if a == 0 then queueStart else (queueStart + MaxSize - 1 - (a - 1)) % MaxSize
    ensures (queueStart + MaxSize - 1 - a) % MaxSize != queueStart
  {
  }

  /** After a completed update, an output byte whose offset is `off` holds
      byte p of the frame submitted (-off) mod MaxSize updates ago, for every
      age up to MaxSize - 1, the oldest. */
  lemma OutputReadsHistory(q: seq<Byte>, queueStart: int, input: seq<Byte>, recent: seq<seq<Byte>>, m: Byte, p: nat, s: Params)
    requires 0 <= queueStart < MaxSize && p < |input|
    requires |q| == MaxSize * |input| && 2 * |q| <= SizeTModulus
    requires HistoryHolds(q, queueStart, |input|, recent)
    requires !Trips(queueStart, m, p, |input|, |q|, s)
    ensures var age := (-FrameOffset(m, s.scale, s.offset, s.invert)) % MaxSize;
            var r := [input] + recent;
            age < |r| ==>
              WriteSlot(q, queueStart, input)[CombinedIndex(SourceSlot(queueStart, m, s), |input|, p)] == r[age][p]
  {
    var off := FrameOffset(m, s.scale, s.offset, s.invert);
    var age := (-off) % MaxSize;
    if age < |recent| + 1 {
      var n := |input|;
      var slot := SourceSlot(queueStart, m, s);
      TripsIff(queueStart, m, p, n, s);
      AgeOfSlot(queueStart, off);
      assert slot == (((queueStart + 1) % MaxSize) + MaxSize - 1 - age) % MaxSize;
      FrameOfAge(q, queueStart, input, recent, age);
      GuardTripsIffNegative(slot, n, p);
      SlotAt(WriteSlot(q, queueStart, input), slot, n, p);
    }
  }

  /** Output byte p holds byte p of the frame of age (-offset) mod MaxSize
      in `recent` (newest first), for every age the history still holds. */
  ghost predicate OutputAges(mapImage: seq<Byte>, s: Params, recent: seq<seq<Byte>>, out: seq<Byte>)
    requires |mapImage| == |out|
  {
    forall p :: 0 <= p < |out| ==>
      var age := (-FrameOffset(mapImage[p], s.scale, s.offset, s.invert)) % MaxSize;
      age < |recent| && |recent[age]| == |out| ==> out[p] == recent[age][p]
  }

  /** A completed update's whole output: byte p holds byte p of the frame of
      its age. */
  lemma CompletedOutputAges(q: seq<Byte>, queueStart: int, input: seq<Byte>, recent: seq<seq<Byte>>,
                            mapImage: seq<Byte>, s: Params, written: seq<Byte>, out: seq<Byte>)
    requires 0 <= queueStart < MaxSize && |mapImage| == |input| == |out|
    requires |q| == MaxSize * |input| && 2 * |q| <= SizeTModulus
    requires written == WriteSlot(q, queueStart, input)
    requires HistoryHolds(q, queueStart, |input|, recent)
    requires forall p :: 0 <= p < |out| ==>
               !Trips(queueStart, mapImage[p], p, |input|, |q|, s) &&
               out[p] == written[CombinedIndex(SourceSlot(queueStart, mapImage[p], s), |input|, p)]
    ensures OutputAges(mapImage, s, [input] + recent, out)
  {
    forall p | 0 <= p < |out|
      ensures var age := (-FrameOffset(mapImage[p], s.scale, s.offset, s.invert)) % MaxSize;
              age < |recent| + 1 ==> out[p] == ([input] + recent)[age][p]
    {
      OutputReadsHistory(q, queueStart, input, recent, mapImage[p], p, s);
    }
  }

  /** Every age below MaxSize after the copy and the cursor advance holds the
      frame of that age. */
  lemma FrameOfAge(q: seq<Byte>, queueStart: int, frame: seq<Byte>, recent: seq<seq<Byte>>, a: int)
    requires 0 <= queueStart < MaxSize && |q| == MaxSize * |frame|
    requires HistoryHolds(q, queueStart, |frame|, recent)
    requires 0 <= a < |recent| + 1 && a < MaxSize
    ensures SlotOf(WriteSlot(q, queueStart, frame), (((queueStart + 1) % MaxSize) + MaxSize - 1 - a) % MaxSize, |frame|)
            == ([frame] + recent)[a]
  {
    if a < MaxSize - 1 {
      HistoryAdvancedAt(q, queueStart, frame, recent, a);
    } else {
      OldestAfterAdvance(q, queueStart, frame, recent);
    }
  }

  /** The oldest age, MaxSize - 1, after the copy and the cursor advance: the
      slot after the old cursor, untouched by the copy, still holds the
      frame of age MaxSize - 2 from before. */
  lemma OldestAfterAdvance(q: seq<Byte>, queueStart: int, frame: seq<Byte>, recent: seq<seq<Byte>>)
    requires 0 <= queueStart < MaxSize && |q| == MaxSize * |frame|
    requires HistoryHolds(q, queueStart, |frame|, recent)
    requires MaxSize - 1 < |recent| + 1
    ensures SlotOf(WriteSlot(q, queueStart, frame), (((queueStart + 1) % MaxSize) + MaxSize - 1 - (MaxSize - 1)) % MaxSize, |frame|)
            == ([frame] + recent)[MaxSize - 1]
  {
    var k := (queueStart + 1) % MaxSize;
    assert (k + MaxSize - 1 - (MaxSize - 1)) % MaxSize == k;
    assert (queueStart + MaxSize - 1 - (MaxSize - 2)) % MaxSize == k;
    WriteKeepsOtherSlots(q, queueStart, k, frame);
    assert SlotOf(q, k, |frame|) == recent[MaxSize - 2];
  }

  /** The slot at offset off from the old cursor is the slot of age
      (-off) mod MaxSize after the advance. */
  lemma AgeOfSlot(queueStart: int, off: int)
    requires 0 <= queueStart < MaxSize
    ensures (((queueStart + 1) % MaxSize) + MaxSize - 1 - (-off) % MaxSize) % MaxSize == (queueStart + off) % MaxSize
  {
    var r, k := (-off) % MaxSize, (-off) / MaxSize;
    assert -off == k * MaxSize + r;
    var x := queueStart - r;
    if queueStart + 1 < MaxSize {
      assert ((queueStart + 1) % MaxSize) + MaxSize - 1 - r == x + 1 * MaxSize;
      ModShift(x, 1);
    } else {
      assert ((queueStart + 1) % MaxSize) + MaxSize - 1 - r == x;
    }
    assert queueStart + off == x + (-k) * MaxSize;
    ModShift(x, -k);
  }

  /** Adding a multiple of MaxSize does not change the remainder. */
  lemma ModShift(x: int, j: int)
    ensures (x + j * MaxSize) % MaxSize == x % MaxSize
  {
    ModUnique(x + j * MaxSize, x / MaxSize + j, x % MaxSize, MaxSize);
  }

  // ---------------------------------------------------------------------
  // The parameter store

  /** f0r_set_param_value: index 0 stores the scale, 1 the offset, 2 invert,
      each as given (the clamp to [0, 1] is computed and its result
      discarded); index 3 (use color) and every other index change nothing. */
  function StoreParam(s: Params, param: ParamValue, index: int): (r: Params)
    requires (index == 0 || index == 1) ==> param.Double?
    requires index == 2 ==> param.Bool?
    ensures index != 0 ==> r.scale == s.scale
    ensures index != 1 ==> r.offset == s.offset
    ensures index != 2 ==> r.invert == s.invert
  {
    if index == 0 then s.(scale := param.d)
    else if index == 1 then s.(offset := param.d)
    else if index == 2 then s.(invert := param.b)
    else s
  }

  /** f0r_get_param_value: what the host's parameter holds afterwards. */
  function LoadParam(s: Params, param: ParamValue, index: int): (r: ParamValue)
    ensures (index < 0 || 2 < index) ==> r == param
    ensures 0 <= index <= 2 ==> (r.Double? <==> index < 2)
  {
    if index == 0 then Double(s.scale)
    else if index == 1 then Double(s.offset)
    else if index == 2 then Bool(s.invert)
    else param
  }

  /** Get after set returns exactly the value set, unclamped; set touches
      only the field it names. */
  lemma StoreThenLoad(s: Params, v: ParamValue, w: ParamValue, index: int)
    requires 0 <= index <= 2
    requires (index == 0 || index == 1) ==> v.Double?
    requires index == 2 ==> v.Bool?
    ensures LoadParam(StoreParam(s, v, index), w, index) == v
    ensures forall j :: 0 <= j <= 2 && j != index ==>
              LoadParam(StoreParam(s, v, index), w, j) == LoadParam(s, w, j)
  {
    if index == 0 {
      assert v == Double(v.d);
    } else if index == 1 {
      assert v == Double(v.d);
    } else {
      assert v == Bool(v.b);
    }
  }

  /** Setting any index outside 0..2 leaves the parameters as they were, and
      getting it leaves the host's value as it was. */
  lemma OtherIndicesInert(s: Params, v: ParamValue, index: int)
    requires index < 0 || 2 < index
    ensures StoreParam(s, v, index) == s
    ensures LoadParam(s, v, index) == v
  {
  }

  // ---------------------------------------------------------------------
  // The instance

  class DelayMapInstance {
    const width: nat
    const height: nat
    var scale: real
    var offset: real
    /** Declared and initialised, never set and never read by Update. */
    var useColor: bool
    var invert: bool
    /** The history vector; the reference never changes, so neither does its size. */
    const queue: array<Byte>
    var queueStart: nat
    /** Frames submitted by completed updates, newest first. */
    ghost var Recent: seq<seq<Byte>>

    ghost predicate Valid()
      reads this, queue
    {
      queue.Length == MaxSize * FrameBytes(width, height) &&
      queue.Length <= VectorMaxSize &&
      queueStart < MaxSize &&
      HistoryHolds(queue[..], queueStart, FrameBytes(width, height), Recent)
    }

    function CurrentParams(): Params
      reads this
    {
      Params(scale, offset, invert)
    }

    /** Update returns before touching anything. */
    predicate Skipped(input: array?<Byte>, mapImage: array?<Byte>, dst: array?<Byte>)
    {
      width == 0 || height == 0 || input == null || mapImage == null || dst == null
    }

    /** The constructor: width * height * 4 * 180 zero bytes, cursor 0. */
    constructor (width: nat, height: nat)
      requires MaxSize * FrameBytes(width, height) <= VectorMaxSize
      ensures Valid() && fresh(queue)
      ensures this.width == width && this.height == height
      ensures scale == 1.0 && offset == 0.0 && useColor && !invert
      ensures queueStart == 0 && Recent == []
      ensures queue[..] == seq(MaxSize * FrameBytes(width, height), _ => 0)
    {
      this.width := width;
      this.height := height;
      scale := 1.0;
      offset := 0.0;
      useColor := true;
      invert := false;
      queue := new Byte[MaxSize * FrameBytes(width, height)](_ => 0);
      queueStart := 0;
      Recent := [];
    }

    /** update: store the input frame in the cursor slot, compose the output
        byte by byte from the slots the map selects, advance the cursor. On a
        guard trip the remaining output bytes are left alone and the cursor
        stays, though the cursor slot has already been overwritten. */
    method Update(input: array?<Byte>, mapImage: array?<Byte>, dst: array?<Byte>)
      requires Valid()
      requires input != null ==> input.Length == FrameBytes(width, height)
      requires mapImage != null ==> mapImage.Length == FrameBytes(width, height)
      requires dst != null ==> dst.Length == FrameBytes(width, height)
      requires input != queue && mapImage != queue && dst != queue
      modifies queue, dst, this`queueStart, this`Recent
      ensures Valid()
      ensures Skipped(input, mapImage, dst) ==>
                unchanged(queue) && queueStart == old(queueStart) && Recent == old(Recent) &&
                (dst != null ==> unchanged(dst))
      ensures !Skipped(input, mapImage, dst) ==>
                queue[..] == WriteSlot(old(queue[..]), old(queueStart), old(input[..]))
      ensures !Skipped(input, mapImage, dst) ==>
                var imSz := FrameBytes(width, height);
                var k := FirstTrip(old(mapImage[..]), 0, old(queueStart), imSz, queue.Length, CurrentParams());
                (forall p :: 0 <= p < imSz ==>
                   dst[p] == if p < k
                             then queue[CombinedIndex(SourceSlot(old(queueStart), old(mapImage[..])[p], CurrentParams()), imSz, p)]
                             else old(dst[p])) &&
                (k == imSz ==> queueStart == (old(queueStart) + 1) % MaxSize && Recent == [old(input[..])] + old(Recent)) &&
                (k < imSz ==> queueStart == old(queueStart) && Recent == old(Recent))
      ensures !Skipped(input, mapImage, dst) ==>
                var imSz := FrameBytes(width, height);
                FirstTrip(old(mapImage[..]), 0, old(queueStart), imSz, queue.Length, CurrentParams()) == imSz ==>
                OutputAges(old(mapImage[..]), CurrentParams(), Recent, dst[..])
    {
      if width == 0 || height == 0 {
        return;
      }
      if input == null || mapImage == null || dst == null {
        return;
      }
      ghost var in0 := input[..];
      ghost var q0 := queue[..];
      ghost var qs0 := queueStart;
      ghost var recent0 := Recent;
      ghost var m0 := mapImage[..];
      StoreFrame(input);
      var completed := ComposeFrame(mapImage, dst);
      if !completed {
        HistoryKeptByWrite(q0, qs0, in0, recent0);
        return;
      }
      HistoryAdvanced(q0, qs0, in0, recent0);
      CompletedOutputAges(q0, qs0, in0, recent0, m0, CurrentParams(), queue[..], dst[..]);
      queueStart := queueStart + 1;
      queueStart := queueStart % MaxSize;
      Recent := [in0] + Recent;
    }

    /** The std::copy of the input frame into the cursor slot. */
    method StoreFrame(input: array<Byte>)
      requires queue.Length == MaxSize * FrameBytes(width, height) && queueStart < MaxSize
      requires input.Length == FrameBytes(width, height) && input != queue
      modifies queue
      ensures queue[..] == WriteSlot(old(queue[..]), queueStart, input[..])
    {
      ghost var q0 := queue[..];
      var imSz := width * height * NumChan;
      var imInd := queueStart * imSz;
      SlotBounds(queueStart, imSz);
      forall j | 0 <= j < imSz {
        queue[imInd + j] := input[j];
      }
      forall j | 0 <= j < queue.Length
        ensures queue[j] == WriteSlot(q0, queueStart, input[..])[j]
      {
        WriteSlotAt(q0, queueStart, input[..], j);
      }
    }

    /** The pixel loops of update: output byte p is copied from the history
        slot its map byte selects, until the first byte whose bounds guard
        trips; `completed` says whether no guard tripped. */
    method ComposeFrame(mapImage: array<Byte>, dst: array<Byte>) returns (completed: bool)
      requires queue.Length == MaxSize * FrameBytes(width, height) && 2 * queue.Length <= SizeTModulus
      requires queueStart < MaxSize
      requires mapImage.Length == FrameBytes(width, height) && dst.Length == FrameBytes(width, height)
      requires dst != queue
      modifies dst
      ensures var imSz := FrameBytes(width, height);
              var k := FirstTrip(old(mapImage[..]), 0, queueStart, imSz, queue.Length, CurrentParams());
              completed == (k == imSz) &&
              (completed ==> forall p :: 0 <= p < imSz ==>
                 !Trips(queueStart, old(mapImage[..])[p], p, imSz, queue.Length, CurrentParams()) &&
                 dst[p] == queue[CombinedIndex(SourceSlot(queueStart, old(mapImage[..])[p], CurrentParams()), imSz, p)]) &&
              forall p :: 0 <= p < imSz ==>
                dst[p] == if p < k
                          then queue[CombinedIndex(SourceSlot(queueStart, old(mapImage[..])[p], CurrentParams()), imSz, p)]
                          else old(dst[p])
    {
      ghost var m0 := mapImage[..];
      ghost var s := CurrentParams();
      var imSz := width * height * NumChan;
      // `done` counts the output bytes written so far: y * width * 4 + x * 4 + i.
      ghost var done := 0;
      var y := 0;
      while y < height
        invariant 0 <= y <= height && done == y * width * NumChan && done <= imSz
        invariant forall q :: done <= q < imSz ==> dst[q] == old(dst[q]) && mapImage[q] == m0[q]
        invariant ComposedPrefix(dst[..], m0, queueStart, s, queue[..], imSz, done)
      {
        RowFits(y, width, height);
        var x := 0;
        while x < width
          invariant 0 <= x <= width && done == y * width * NumChan + x * NumChan
          invariant forall q :: done <= q < imSz ==> dst[q] == old(dst[q]) && mapImage[q] == m0[q]
          invariant ComposedPrefix(dst[..], m0, queueStart, s, queue[..], imSz, done)
        {
          var pixInd := y * width * NumChan + x * NumChan;
          ColumnFits(x, width);
          var i := 0;
          while i < NumChan
            invariant 0 <= i <= NumChan && done == pixInd + i && pixInd + NumChan <= imSz
            invariant forall q :: done <= q < imSz ==> dst[q] == old(dst[q]) && mapImage[q] == m0[q]
            invariant ComposedPrefix(dst[..], m0, queueStart, s, queue[..], imSz, done)
          {
            var pixChanInd := pixInd + i;
            var srcImIndRaw := mapImage[pixChanInd];
            var srcImIndOffset := FrameOffset(srcImIndRaw, scale, offset, invert);
            var srcImInd := SlotIndex(queueStart, srcImIndOffset, MaxSize);
            var combinedInd := CombinedIndex(srcImInd, imSz, pixChanInd);
            if combinedInd >= queue.Length {
              FirstTripAt(m0, pixChanInd, queueStart, imSz, queue.Length, s);
              return false;
            }
            ComposedPrefixExtend(dst[..], m0, queueStart, s, queue[..], imSz, done, queue[combinedInd]);
            dst[pixChanInd] := queue[combinedInd];
            i := i + 1;
            done := done + 1;
          }
          x := x + 1;
        }
        y := y + 1;
      }
      assert done == imSz by {
        MulComm3(height, width, NumChan);
      }
      FirstTripNone(m0, queueStart, imSz, queue.Length, s);
      assert forall p :: 0 <= p < imSz ==> dst[p] == dst[..][p];
      return true;
    }

    /** f0r_set_param_value for this instance. */
    method SetParamValue(param: ParamValue, index: int)
      requires (index == 0 || index == 1) ==> param.Double?
      requires index == 2 ==> param.Bool?
      modifies this`scale, this`offset, this`invert
      ensures CurrentParams() == StoreParam(old(CurrentParams()), param, index)
    {
      if index == 0 {
        scale := param.d;
      } else if index == 1 {
        offset := param.d;
      } else if index == 2 {
        invert := param.b;
      }
    }

    /** f0r_get_param_value for this instance: `param` is the host's value
        before the call, `r` after. */
    method GetParamValue(param: ParamValue, index: int) returns (r: ParamValue)
      ensures r == LoadParam(CurrentParams(), param, index)
      ensures 0 <= index <= 2 ==> StoreParam(CurrentParams(), r, index) == CurrentParams()
    {
      r := param;
      if index == 0 {
        r := Double(scale);
      } else if index == 1 {
        r := Double(offset);
      } else if index == 2 {
        r := Bool(invert);
      }
    }
  }

  /** The first `done` output bytes, in loop order, passed the guard and
      hold the history byte their map byte selects. */
  ghost predicate ComposedPrefix(out: seq<Byte>, mapImage: seq<Byte>, queueStart: int, s: Params,
                                 history: seq<Byte>, imSz: nat, done: int)
  {
    done <= |out| && done <= |mapImage| &&
    forall q :: 0 <= q < done ==>
      !Trips(queueStart, mapImage[q], q, imSz, |history|, s) &&
      out[q] == history[CombinedIndex(SourceSlot(queueStart, mapImage[q], s), imSz, q)]
  }

  /** Writing the selected byte of a non-tripping output byte extends the
      composed prefix by one. */
  lemma ComposedPrefixExtend(out: seq<Byte>, mapImage: seq<Byte>, queueStart: int, s: Params,
                             history: seq<Byte>, imSz: nat, done: nat, v: Byte)
    requires ComposedPrefix(out, mapImage, queueStart, s, history, imSz, done)
    requires done < |out| && done < |mapImage|
    requires !Trips(queueStart, mapImage[done], done, imSz, |history|, s)
    requires v == history[CombinedIndex(SourceSlot(queueStart, mapImage[done], s), imSz, done)]
    ensures ComposedPrefix(out[done := v], mapImage, queueStart, s, history, imSz, done + 1)
  {
  }

  /** Row y of the pixel loops stays within the frame. */
  lemma RowFits(y: nat, width: nat, height: nat)
    requires y < height
    ensures y * width * NumChan + width * NumChan == (y + 1) * width * NumChan
    ensures (y + 1) * width * NumChan <= width * height * NumChan
  {
    MulLe(y + 1, height, width * NumChan);
  }

  /** Pixel x of a row stays within the row. */
  lemma ColumnFits(x: nat, width: nat)
    requires x < width
    ensures x * NumChan + NumChan == (x + 1) * NumChan <= width * NumChan
  {
    MulLe(x + 1, width, NumChan);
  }

  lemma MulComm3(a: nat, b: nat, c: nat)
    ensures a * b * c == b * a * c
  {
  }

  /** The loop's evidence pins FirstTrip down. */
  lemma FirstTripAt(mapImage: seq<Byte>, k: nat, queueStart: int, imSz: nat, queueLen: nat, s: Params)
    requires k < |mapImage|
    requires forall p :: 0 <= p < k ==> !Trips(queueStart, mapImage[p], p, imSz, queueLen, s)
    requires Trips(queueStart, mapImage[k], k, imSz, queueLen, s)
    ensures FirstTrip(mapImage, 0, queueStart, imSz, queueLen, s) == k
  {
  }

  lemma FirstTripNone(mapImage: seq<Byte>, queueStart: int, imSz: nat, queueLen: nat, s: Params)
    requires forall p :: 0 <= p < |mapImage| ==> !Trips(queueStart, mapImage[p], p, imSz, queueLen, s)
    ensures FirstTrip(mapImage, 0, queueStart, imSz, queueLen, s) == |mapImage|
  {
  }
}
