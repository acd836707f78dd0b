# HEVC control setup of a V4L2 stateless request (model)

This project models the HEVC (H.265) part of a VA-API back end for the Linux
V4L2 stateless decode interface, `src/h265.c`. For one slice the back end:

- reads two NAL header fields back from the raw bitstream: `nal_unit_type` is
  bits 6..1 of the first header byte, and `nuh_temporal_id_plus1` is bits 2..0
  of the second. This is the `nal_unit_header()` layout of section 7.3.1.2 of
  ITU-T H.265.
- corrects the byte-aligned slice data offset to a bit offset. It scans the
  byte just before the reported offset for its lowest set bit, the
  `alignment_bit_equal_to_one` of `byte_alignment()` (section 7.3.2.12 of
  ITU-T H.265), and steps back by that bit's position plus one.
- zero-fills the PPS, SPS and slice-params control blocks (no field is
  assigned yet).
- submits the blocks in the order PPS, SPS, slice params. It returns
  `VA_STATUS_ERROR_OPERATION_FAILED` at the first refused submission and 0
  once all three are accepted.

Modules:

- `Wrappers` (`wrappers.dfy`): an `Option` type for the malformed-slice result.
- `NalHeader` (`nal_header.dfy`): the extractor. For reference it also has
  the whole two-byte header as a datatype, with an encoder and a parser that
  are proved inverse to each other.
- `SliceOffset` (`slice_offset.dfy`): the scan loop as a method with
  invariants. It also holds the offset as the code computes it, in unsigned
  32-bit arithmetic, and a corrected offset that reports a zero marker byte
  as malformed.
- `Controls` (`controls.dfy`): the zero-filled blocks and the submission
  order as a pure function (`Submit`), with lemmas about it. It also has a
  `Device` class for the request's transport, and `SetControls`, the
  imperative sequence with its early returns.

The bitstream is a `seq<bv8>` and bytes are read by index. Offsets are
32-bit unsigned values (`uint32`), and their arithmetic wraps modulo 2^32, as
the C code's does. The transport is an oracle. The device answers its n-th
submission with `answer(n)`, where a negative result means failure, and it
records every block it receives.

Limits of what the code computes:

- The corrected offset lies at or after `slice_data_offset * 8` when
  `slice_data_byte_offset` is at least 1, the sum of the two offsets does not
  wrap, and the reported byte offset times 8 fits 32 bits
  (`CorrectedBounds`).
- For a zero marker byte the scan index ends at 8, so `o` becomes 9 and the
  offset lands before the previous byte (or wraps to 0xFFFFFFFF at reported
  byte 1; see the Findings section).
- The slice-params mapper computes the NAL header fields and the bit offset,
  then clears its block. None of the computed values reaches the submitted
  block. `FillSliceParams` returns them beside the all-zero block: the bit
  offset exactly as the code computes it, and next to it the corrected
  offset, which is absent for a zero marker byte.

## Model

| member | source | states |
|---|---|---|
| `NalHeader.NalUnitType` | src/h265.c:91-92 | the type is bits 6..1 of the byte, moved down, so it is below 64 |
| `NalHeader.TemporalIdPlus1` | src/h265.c:93-94 | the temporal id plus one is bits 2..0 of the byte, so it is below 8 |
| `NalHeader.ExtractNalFields` | src/h265.c:89-94 | both fields are read from the two bytes at slice_data_offset and fit 6 and 3 bits |
| `NalHeader.ExtractAgreesWithParse` | src/h265.c:89-94 | the extracted fields are exactly the nal_unit_type and nuh_temporal_id_plus1 of the full section 7.3.1.2 header parse |
| `NalHeader.ExtractInvertsEncode` | src/h265.c:89-94 | any well-formed header written at the offset is read back with its own type and temporal id |
| `NalHeader.ExtractReadsOnlyFieldBits` | src/h265.c:89-94 | two buffers give the same fields if and only if they agree on bits 6..1 of byte 0 and bits 2..0 of byte 1 |
| `NalHeader.ExtractExample` | src/h265.c:91-94 | header bytes 0x26 0x01 give type 0x13 and temporal id plus one 1 |
| `SliceOffset.ScanFrom` | src/h265.c:106-108 | a scan from bit k stops at the first set bit at or above k, with no set bit passed, or at 8 |
| `SliceOffset.MarkerPosition` | src/h265.c:106-108 | where the scan stops is the lowest set bit, with all lower bits clear, and it is 8 exactly for the zero byte |
| `SliceOffset.LowestBitIsolation` | src/h265.c:106-108 | for a nonzero byte, the bit the scan finds is the one two's-complement isolation `b & -b` keeps |
| `SliceOffset.FindMarkerBit` | src/h265.c:106-108 | the loop leaves o at the lowest set bit (invariant: no bit below o is set), or 8 |
| `SliceOffset.AsWrittenDataBitOffset` | src/h265.c:113-114 | defines data_bit_offset as (reported * 8 - o) mod 2^32; for a nonzero marker byte without overflow it lies in the previous byte, for a zero one it is reported * 8 - 9 |
| `SliceOffset.CorrectBitOffset` | src/h265.c:103-114 | inspects the byte at slice_data_offset + slice_data_byte_offset - 1; o ends in 1..9 and is 9 exactly for a zero byte; the offset is (reported * 8 - o) mod 2^32 |
| `SliceOffset.AsWrittenBounds` | src/h265.c:110-114 | for a nonzero byte without 32-bit overflow the offset is reported * 8 - (lowest set bit + 1) and lies in the previous byte |
| `SliceOffset.AsWrittenZeroByteOverrun` | src/h265.c:106-114 | for a zero byte the offset is 9 bits back, before the previous byte, and wraps to 2^32 - 1 at reported byte 1 |
| `SliceOffset.AsWrittenZeroByteExample` | src/h265.c:103-114 | a zero byte before reported byte 1 yields offset 0xFFFFFFFF |
| `SliceOffset.CorrectedDataBitOffset` | src/h265.c:103-114 | no offset exactly when the inspected byte has no marker bit, otherwise the offset the code computes |
| `SliceOffset.CorrectedBounds` | src/h265.c:113-114 | when reported * 8 fits 32 bits, a corrected offset lies in [(reported - 1) * 8, reported * 8), and also at or after slice_data_offset * 8 when the byte offset is at least 1 and the sum of the two offsets does not wrap |
| `SliceOffset.CorrectedReadsOnlyMarkerByte` | src/h265.c:103-104 | buffers that agree on the inspected byte give the same correction |
| `SliceOffset.CorrectionExamples` | src/h265.c:106-114 | marker bytes 0x01, 0x10, 0x80 give corrections of 1, 5, 8 bits |
| `Controls.Zeroed` | src/h265.c:52 | a cleared block has its size and every byte zero |
| `Controls.FillPps` | src/h265.c:48-55 | the PPS block is its kernel size, all zero |
| `Controls.FillSps` | src/h265.c:57-63 | the SPS block is its kernel size, all zero |
| `Controls.FillSliceParams` | src/h265.c:65-118 | returns the extracted header fields, the bit offset as the code computes it ((reported * 8 - o) mod 2^32), the corrected offset, and an all-zero slice-params block |
| `Controls.Plan` | src/h265.c:136-155 | the blocks go out as PPS, SPS, slice params, each of its kernel size and all zero |
| `Controls.Submit` | src/h265.c:136-159 | submits the plan in order, stopping after the first refused call: at most the whole plan, at least one call, status 0 or failure, failure only right after a refused call, and success only with every block sent |
| `Controls.SubmitTrace` | src/h265.c:136-159 | the submissions made are a nonempty prefix of the plan; success holds if and only if every submission was accepted, and then the whole plan was submitted |
| `Controls.SubmitStopsAtFirstFailure` | src/h265.c:136-157 | on failure, the last submission was refused and every earlier one was accepted |
| `Controls.SubmitThree` | src/h265.c:136-159 | the three-step sequence returns failure after the first, second or third refused call, else success after three |
| `Controls.SetControlsOutcome` | src/h265.c:120-160 | the i-th call submits PPS, SPS, slice params for i = 0, 1, 2, each block all zero; 1, 2 or 3 calls are made by the first refusal; success if and only if all three were accepted |
| `Controls.Device.SetControl` | src/h265.c:138-139 | one submission is appended to the device's record and answered by the oracle |
| `Controls.SetControls` | src/h265.c:120-160 | the status and the device's new record of submissions are those of the submission sequence; the slice's bytes need to be in the bitstream only when PPS and SPS are accepted |
| `Controls.AllAcceptedScenario` | src/h265.c:136-159 | with every call accepted the result is 0 after exactly PPS, SPS, slice params |
| `Controls.SpsRefusedScenario` | src/h265.c:143-148 | with the SPS refused the result is failure after exactly two calls, PPS and SPS |

## Left out

- The V4L2 control ioctl transport (`v4l2_set_control`), the video and request file descriptors, and the surface heap. These are device I/O and foreign calls. The transport is the `answer` oracle of `Controls.Device`.
- The binary layout and `sizeof` of the kernel HEVC control structures and of the VA-API structures come from headers that are not part of this model. Block sizes are a `BlockSizes` parameter, and a block is only "that many zero bytes".
- The numeric values of the control identifiers also come from those headers. `ControlId` is an enumeration. `OperationFailed` is 1, the value of `VA_STATUS_ERROR_OPERATION_FAILED` in libva.
- The picture parameters, the quantization matrix and `iqmatrix_set`. `picture`, `iqmatrix` and `iqmatrix_set` are set at lines 124-130 of `src/h265.c` (and `picture` is passed to all three mappers) but never dereferenced or read afterwards; the slice-params mapper's extra locals (lines 76-85) are never assigned. The field mappings are still to be written.
- The raw pointer arithmetic became indexing into a `seq<bv8>`. A read outside the buffer is undefined behaviour in the code, so reading in bounds is a precondition (`HeaderInBuffer`, `MarkerByteInBuffer`).
- Controls.Submit: describes the sequence with all three blocks filled in advance. Filling is pure, so a block that is never built cannot be observed. `SetControls` fills each block only after the previous submission was accepted.

## Findings

| source | as written | input that shows it | evidently intended | confidence | as-written member | corrected member |
|---|---|---|---|---|---|---|
| src/h265.c:106-114 | when the inspected byte is zero, the scan runs out, `o` becomes 9 and `data_bit_offset` is (reported * 8 - 9) mod 2^32: a bit before the previous byte, or 0xFFFFFFFF at reported byte 1 | slice_data_offset 0, slice_data_byte_offset 1, bitstream byte 0 equal to 0x00 | a byte without the alignment bit is a malformed slice and yields no offset | not executed; medium (a conforming stream always has the alignment bit) | `SliceOffset.AsWrittenZeroByteOverrun` | `SliceOffset.CorrectedDataBitOffset` |
