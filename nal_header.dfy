/**
 * NAL unit header fields that the VA-API slice parameters (VASliceParameterBufferHEVC) do not
 * carry: the slice-params mapper reads them back from the first two bytes of
 * the slice NAL unit in the raw bitstream.
 *
 * The two-byte header is laid out as in section 7.3.1.2 of ITU-T H.265
 * (nal_unit_header): forbidden_zero_bit f(1), nal_unit_type u(6),
 * nuh_layer_id u(6), nuh_temporal_id_plus1 u(3), most significant bit first.
 */
module NalHeader {

  /** The shift and mask constants the extractor uses (a shift, then a mask of 6 and of 3 ones). */
  const NalUnitTypeShift: nat := 1
  const NalUnitTypeMask: bv8 := (1 << 6) - 1
  const TemporalIdPlus1Shift: nat := 0
  const TemporalIdPlus1Mask: bv8 := (1 << 3) - 1

  /** nal_unit_type: bits 6..1 of header byte 0. */
  function NalUnitType(b0: bv8): (r: bv8)
    ensures r < 64
    ensures r == (b0 & 0x7E) >> 1
  {
    (b0 >> NalUnitTypeShift) & NalUnitTypeMask
  }

  /** nuh_temporal_id_plus1: bits 2..0 of header byte 1. */
  function TemporalIdPlus1(b1: bv8): (r: bv8)
    ensures r < 8
    ensures r == b1 & 0x07
  {
    (b1 >> TemporalIdPlus1Shift) & TemporalIdPlus1Mask
  }

  /** The two header fields the slice-params mapper recovers. */
  datatype NalFields = NalFields(nalUnitType: bv8, nuhTemporalIdPlus1: bv8)

  /** There are two bytes of header at `offset` (the caller's guarantee). */
  predicate HeaderInBuffer(data: seq<bv8>, offset: nat)
  {
    offset + 1 < |data|
  }

  /**
   * Reads the header at `offset` (the slice_data_offset) of the bitstream:
   * byte 0 gives the NAL unit type, byte 1 the temporal id plus one.
   */
  function ExtractNalFields(data: seq<bv8>, offset: nat): (r: NalFields)
    requires HeaderInBuffer(data, offset)
    ensures r.nalUnitType < 64 && r.nuhTemporalIdPlus1 < 8
  {
    NalFields(NalUnitType(data[offset]), TemporalIdPlus1(data[offset + 1]))
  }

  // ---------------------------------------------------------------------------
  // Reference: the whole nal_unit_header() syntax structure, encoded and parsed.

  datatype NalUnitHeader = NalUnitHeader(
    forbiddenZeroBit: bv8,
    nalUnitType: bv8,
    nuhLayerId: bv8,
    nuhTemporalIdPlus1: bv8)

  /** Every field fits its width in the syntax structure. */
  predicate FieldsFit(h: NalUnitHeader)
  {
    h.forbiddenZeroBit < 2 && h.nalUnitType < 64 && h.nuhLayerId < 64 && h.nuhTemporalIdPlus1 < 8
  }

  /** The two bytes of a header, most significant bit first. */
  function EncodeHeader(h: NalUnitHeader): (bytes: seq<bv8>)
    ensures |bytes| == 2
  {
    [ (h.forbiddenZeroBit << 7) | (h.nalUnitType << 1) | (h.nuhLayerId >> 5),
      ((h.nuhLayerId & 0x1F) << 3) | h.nuhTemporalIdPlus1 ]
  }

  /** Splits two header bytes into all four fields. */
  function ParseHeader(b0: bv8, b1: bv8): (h: NalUnitHeader)
    ensures FieldsFit(h)
  {
    NalUnitHeader(b0 >> 7, (b0 >> 1) & 0x3F, ((b0 & 1) << 5) | (b1 >> 3), b1 & 0x07)
  }

  /** Parsing undoes encoding for every header whose fields fit. */
  lemma ParseEncode(h: NalUnitHeader)
    requires FieldsFit(h)
    ensures ParseHeader(EncodeHeader(h)[0], EncodeHeader(h)[1]) == h
  {
  }

  /** Encoding undoes parsing: no bit of the two bytes is lost. */
  lemma EncodeParse(b0: bv8, b1: bv8)
    ensures EncodeHeader(ParseHeader(b0, b1)) == [b0, b1]
  {
  }

  /** The extractor returns exactly the two fields of the full header parse. */
  lemma ExtractAgreesWithParse(data: seq<bv8>, offset: nat)
    requires HeaderInBuffer(data, offset)
    ensures var h := ParseHeader(data[offset], data[offset + 1]);
            ExtractNalFields(data, offset) == NalFields(h.nalUnitType, h.nuhTemporalIdPlus1)
  {
  }

  /** A header written at `offset` is read back with its own type and temporal id. */
  lemma ExtractInvertsEncode(h: NalUnitHeader, data: seq<bv8>, offset: nat)
    requires FieldsFit(h)
    requires HeaderInBuffer(data, offset)
    requires data[offset..offset + 2] == EncodeHeader(h)
    ensures ExtractNalFields(data, offset) == NalFields(h.nalUnitType, h.nuhTemporalIdPlus1)
  {
  }

  /**
   * The extractor depends on bits 6..1 of byte 0 and bits 2..0 of byte 1 and
   * on nothing else: two buffers give the same fields exactly when they agree
   * on those bits.
   */
  lemma ExtractReadsOnlyFieldBits(d1: seq<bv8>, o1: nat, d2: seq<bv8>, o2: nat)
    requires HeaderInBuffer(d1, o1) && HeaderInBuffer(d2, o2)
    ensures ExtractNalFields(d1, o1) == ExtractNalFields(d2, o2)
            <==> (d1[o1] & 0x7E == d2[o2] & 0x7E && d1[o1 + 1] & 0x07 == d2[o2 + 1] & 0x07)
  {
  }

  /** Header bytes 0x26 0x01: nal_unit_type 0x13, nuh_temporal_id_plus1 1. */
  lemma ExtractExample()
    ensures ExtractNalFields([0x26, 0x01], 0) == NalFields(0x13, 1)
  {
  }
}
