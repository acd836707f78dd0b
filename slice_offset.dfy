/**
 * Slice start bit correction.
 *
 * The VA-API slice parameters (VASliceParameterBufferHEVC) give only a byte-aligned start of the slice
 * segment data. The byte just before that position ends with the
 * byte_alignment() of the slice header (section 7.3.2.12 of ITU-T H.265): an
 * alignment_bit_equal_to_one followed by zero bits up to the byte boundary.
 * The corrector scans that byte from its least significant bit upward for the
 * first one bit and moves the bit offset back by its position plus one.
 *
 * All offsets are 32-bit unsigned values, and the offset arithmetic is
 * unsigned 32-bit arithmetic: it wraps modulo 2^32.
 */
module SliceOffset {
  import opened Wrappers

  const U32Modulus: int := 0x1_0000_0000

  type uint32 = x: int | 0 <= x < 0x1_0000_0000

  /** The two offsets of the VA-API slice parameters that the correction uses. */
  datatype SliceParameters = SliceParameters(sliceDataOffset: uint32, sliceDataByteOffset: uint32)

  /** slice_data_offset + slice_data_byte_offset, as an unsigned 32-bit sum. */
  function ReportedByte(s: SliceParameters): uint32
  {
    (s.sliceDataOffset + s.sliceDataByteOffset) % U32Modulus
  }

  /** The byte before the reported one exists in the bitstream. */
  predicate MarkerByteInBuffer(data: seq<bv8>, s: SliceParameters)
  {
    1 <= ReportedByte(s) <= |data|
  }

  /** The byte the scan inspects: the one just before the reported byte offset. */
  function MarkerByte(data: seq<bv8>, s: SliceParameters): bv8
    requires MarkerByteInBuffer(data, s)
  {
    data[ReportedByte(s) - 1]
  }

  /** The test `b & (1 << k)` of the scan. */
  predicate BitSet(b: bv8, k: nat)
    requires k < 8
  {
    b & ((1 as bv8) << k) != 0
  }

  /** Where a scan of `b` started at bit `k` stops: the first set bit at or above `k`, or 8. */
  function ScanFrom(b: bv8, k: nat): (p: nat)
    requires k <= 8
    ensures k <= p <= 8
    ensures forall j :: k <= j < p ==> !BitSet(b, j)
    ensures p < 8 ==> BitSet(b, p)
    decreases 8 - k
  {
    if k == 8 then 8 else if BitSet(b, k) then k else ScanFrom(b, k + 1)
  }

  /** A byte with none of its eight bits set is the zero byte. */
  lemma NoBitSetIsZero(b: bv8)
    requires forall j :: 0 <= j < 8 ==> !BitSet(b, j)
    ensures b == 0
  {
    assert !BitSet(b, 0) && !BitSet(b, 1) && !BitSet(b, 2) && !BitSet(b, 3);
    assert !BitSet(b, 4) && !BitSet(b, 5) && !BitSet(b, 6) && !BitSet(b, 7);
  }

  /**
   * The value of the scan index when the scan loop ends: the index of the
   * lowest set bit of `b`, and 8 exactly when `b` is zero.
   */
  function MarkerPosition(b: bv8): (p: nat)
    ensures p <= 8
    ensures forall j :: 0 <= j < p ==> !BitSet(b, j)
    ensures p < 8 ==> BitSet(b, p)
    ensures p == 8 <==> b == 0
  {
    var p := ScanFrom(b, 0);
    if p == 8 then NoBitSetIsZero(b); p else p
  }

  /**
   * Independent reference for the scan: in two's complement, `b & -b` keeps
   * only the lowest set bit of `b`, and that bit is the one the scan finds.
   */
  lemma LowestBitIsolation(b: bv8)
    requires b != 0
    ensures MarkerPosition(b) < 8
    ensures b & (0 - b) == (1 as bv8) << MarkerPosition(b)
  {
  }

  /** The scan loop: bit positions 0 to 7, stopping at the first set bit. */
  method FindMarkerBit(b: bv8) returns (o: nat)
    ensures o <= 8
    ensures forall j :: 0 <= j < o ==> !BitSet(b, j)
    ensures o < 8 ==> BitSet(b, o)
    ensures o == MarkerPosition(b)
  {
    o := 0;
    while o < 8
      invariant o <= 8
      invariant forall j :: 0 <= j < o ==> !BitSet(b, j)
    {
      if BitSet(b, o) {
        break;
      }
      o := o + 1;
    }
  }

  /**
   * data_bit_offset as the code computes it: the reported byte offset times 8,
   * minus the scan index plus one, in unsigned 32-bit arithmetic.
   */
  function AsWrittenDataBitOffset(data: seq<bv8>, s: SliceParameters): (r: uint32)
    requires MarkerByteInBuffer(data, s)
    ensures MarkerByte(data, s) != 0 && ReportedByte(s) * 8 < U32Modulus
            ==> (ReportedByte(s) - 1) * 8 <= r < ReportedByte(s) * 8
    ensures MarkerByte(data, s) == 0 && 2 <= ReportedByte(s) && ReportedByte(s) * 8 < U32Modulus
            ==> r == ReportedByte(s) * 8 - 9
  {
    (ReportedByte(s) * 8 - (MarkerPosition(MarkerByte(data, s)) + 1)) % U32Modulus
  }

  /** The offset computation of the code, with its scan loop. */
  method CorrectBitOffset(data: seq<bv8>, s: SliceParameters) returns (o: nat, dataBitOffset: uint32)
    requires MarkerByteInBuffer(data, s)
    ensures 1 <= o <= 9
    ensures o == 9 <==> MarkerByte(data, s) == 0
    ensures o == MarkerPosition(MarkerByte(data, s)) + 1
    ensures dataBitOffset == AsWrittenDataBitOffset(data, s)
  {
    var b := data[ReportedByte(s) - 1];
    o := FindMarkerBit(b);
    // count the marker bit itself
    o := o + 1;
    dataBitOffset := (ReportedByte(s) * 8 - o) % U32Modulus;
  }

  /**
   * For a byte that holds the marker bit, and a reported byte offset whose
   * multiple of 8 fits 32 bits, the corrected offset is the reported bit
   * offset minus the marker's position plus one, inside the previous byte.
   */
  lemma AsWrittenBounds(data: seq<bv8>, s: SliceParameters)
    requires MarkerByteInBuffer(data, s)
    requires MarkerByte(data, s) != 0
    requires ReportedByte(s) * 8 < U32Modulus
    ensures AsWrittenDataBitOffset(data, s)
            == ReportedByte(s) * 8 - (MarkerPosition(MarkerByte(data, s)) + 1)
    ensures (ReportedByte(s) - 1) * 8 <= AsWrittenDataBitOffset(data, s) < ReportedByte(s) * 8
  {
  }

  /**
   * For a zero byte (no marker bit) the scan runs to exhaustion and the
   * offset lands 9 bits before the reported one, a full bit before the
   * start of the previous byte; at reported byte 1 it wraps to 2^32 - 1.
   */
  lemma AsWrittenZeroByteOverrun(data: seq<bv8>, s: SliceParameters)
    requires MarkerByteInBuffer(data, s)
    requires MarkerByte(data, s) == 0
    ensures AsWrittenDataBitOffset(data, s) == (ReportedByte(s) * 8 - 9) % U32Modulus
    ensures 2 <= ReportedByte(s) && ReportedByte(s) * 8 < U32Modulus
            ==> AsWrittenDataBitOffset(data, s) < (ReportedByte(s) - 1) * 8
    ensures ReportedByte(s) == 1 ==> AsWrittenDataBitOffset(data, s) == 0xFFFF_FFFF
  {
  }

  /** Concrete instance: a zero byte before reported byte 1 gives offset 2^32 - 1. */
  lemma AsWrittenZeroByteExample()
    ensures AsWrittenDataBitOffset([0x00], SliceParameters(0, 1)) == 0xFFFF_FFFF
  {
  }

  /**
   * The corrected offset: none when the inspected byte carries no marker bit
   * (a malformed slice), otherwise the offset the code computes.
   */
  function CorrectedDataBitOffset(data: seq<bv8>, s: SliceParameters): (r: Option<uint32>)
    requires MarkerByteInBuffer(data, s)
    ensures r.None? <==> MarkerByte(data, s) == 0
    ensures r.Some? ==> r.value == AsWrittenDataBitOffset(data, s)
  {
    if MarkerByte(data, s) == 0 then None else Some(AsWrittenDataBitOffset(data, s))
  }

  /**
   * A corrected offset always lies in the byte before the reported one (when
   * the reported bit offset fits 32 bits), and at or after the start of the
   * slice data when the byte offset is at least one and the sum does not wrap.
   */
  lemma CorrectedBounds(data: seq<bv8>, s: SliceParameters)
    requires MarkerByteInBuffer(data, s)
    requires ReportedByte(s) * 8 < U32Modulus
    ensures var r := CorrectedDataBitOffset(data, s);
            r.Some? ==> (ReportedByte(s) - 1) * 8 <= r.value < ReportedByte(s) * 8
    ensures var r := CorrectedDataBitOffset(data, s);
            r.Some? && 1 <= s.sliceDataByteOffset && s.sliceDataOffset + s.sliceDataByteOffset < U32Modulus
            ==> s.sliceDataOffset * 8 <= r.value
  {
  }

  /** The correction reads one byte of the bitstream and nothing else. */
  lemma CorrectedReadsOnlyMarkerByte(d1: seq<bv8>, d2: seq<bv8>, s: SliceParameters)
    requires MarkerByteInBuffer(d1, s) && MarkerByteInBuffer(d2, s)
    requires d1[ReportedByte(s) - 1] == d2[ReportedByte(s) - 1]
    ensures CorrectedDataBitOffset(d1, s) == CorrectedDataBitOffset(d2, s)
  {
  }

  /** Marker bits 0, 4 and 7 give corrections of 1, 5 and 8 bits. */
  lemma CorrectionExamples()
    ensures MarkerPosition(0x01) + 1 == 1
    ensures MarkerPosition(0x10) + 1 == 5
    ensures MarkerPosition(0x80) + 1 == 8
    ensures CorrectedDataBitOffset([0x10], SliceParameters(0, 1)) == Some(3)
  {
  }
}
