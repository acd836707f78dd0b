/**
 * The three HEVC control blocks (PPS, SPS, slice parameters) and their
 * submission, in that order, to the stateless decode interface of a request.
 *
 * Each block is zero-filled and has no field assigned yet, so a block is a
 * byte string of its kernel size with every byte zero. The slice-params
 * mapper still reads the NAL header fields and corrects the slice data bit
 * offset, but those values are not stored in the block.
 *
 * The control-submission transport is an oracle: the device answers the n-th
 * submission of the request with the return code `answer(n)`, negative for a
 * failure, and records every submission it receives.
 */
module Controls {
  import opened Wrappers
  import opened NalHeader
  import opened SliceOffset

  /** The three controls of one HEVC slice. */
  datatype ControlId = HevcPps | HevcSps | HevcSliceParams

  /** The sizes of the three kernel control structures (defined by the kernel headers). */
  datatype BlockSizes = BlockSizes(pps: nat, sps: nat, sliceParams: nat)

  /** One control handed to the transport: its identifier and the bytes of its block. */
  datatype Submission = Submission(id: ControlId, block: seq<bv8>)

  /** The two results of the overall operation (VA_STATUS_SUCCESS, VA_STATUS_ERROR_OPERATION_FAILED). */
  const Success: int := 0
  const OperationFailed: int := 1

  /** What the core reads of a surface: the slice parameters and the bitstream backing the slice. */
  datatype SurfaceParams = SurfaceParams(slice: SliceParameters, sourceData: seq<bv8>)

  /** The bytes the slice-params mapper reads are inside the bitstream. */
  predicate SliceFits(surface: SurfaceParams)
  {
    HeaderInBuffer(surface.sourceData, surface.slice.sliceDataOffset)
    && MarkerByteInBuffer(surface.sourceData, surface.slice)
  }

  predicate AllZero(block: seq<bv8>)
  {
    forall i :: 0 <= i < |block| ==> block[i] == 0
  }

  /** A control block of `size` bytes cleared to zero. */
  function Zeroed(size: nat): (block: seq<bv8>)
    ensures |block| == size && AllZero(block)
  {
    seq(size, _ => 0)
  }

  /** A zero-filled block of a given size is unique. */
  lemma ZeroedUnique(block: seq<bv8>)
    requires AllZero(block)
    ensures block == Zeroed(|block|)
  {
  }

  /** The PPS mapper: clears the block; no PPS field is assigned. */
  function FillPps(surface: SurfaceParams, size: nat): (pps: seq<bv8>)
    ensures |pps| == size && AllZero(pps)
  {
    Zeroed(size)
  }

  /** The SPS mapper: clears the block; no SPS field is assigned. */
  function FillSps(surface: SurfaceParams, size: nat): (sps: seq<bv8>)
    ensures |sps| == size && AllZero(sps)
  {
    Zeroed(size)
  }

  /**
   * The slice-params mapper: recovers the NAL header fields, computes the
   * slice data bit offset as the code does, and clears the block, which
   * receives none of them. `corrected` is the same offset with a zero marker
   * byte reported as malformed.
   */
  method FillSliceParams(surface: SurfaceParams, size: nat)
    returns (header: NalFields, dataBitOffset: uint32, corrected: Option<uint32>, sliceParams: seq<bv8>)
    requires SliceFits(surface)
    ensures header == ExtractNalFields(surface.sourceData, surface.slice.sliceDataOffset)
    ensures dataBitOffset == AsWrittenDataBitOffset(surface.sourceData, surface.slice)
    ensures corrected == CorrectedDataBitOffset(surface.sourceData, surface.slice)
    ensures |sliceParams| == size && AllZero(sliceParams)
  {
    header := ExtractNalFields(surface.sourceData, surface.slice.sliceDataOffset);
    var o;
    o, dataBitOffset := CorrectBitOffset(surface.sourceData, surface.slice);
    corrected := if o == 9 then None else Some(dataBitOffset);
    sliceParams := Zeroed(size);
  }

  /** The blocks submitted for one slice, in submission order. */
  function Plan(surface: SurfaceParams, sizes: BlockSizes): (plan: seq<Submission>)
    ensures |plan| == 3
    ensures plan[0].id == HevcPps && plan[1].id == HevcSps && plan[2].id == HevcSliceParams
    ensures |plan[0].block| == sizes.pps && |plan[1].block| == sizes.sps
            && |plan[2].block| == sizes.sliceParams
    ensures forall i :: 0 <= i < 3 ==> AllZero(plan[i].block)
  {
    [ Submission(HevcPps, FillPps(surface, sizes.pps)),
      Submission(HevcSps, FillSps(surface, sizes.sps)),
      Submission(HevcSliceParams, Zeroed(sizes.sliceParams)) ]
  }

  /** The result of a submission sequence and the submissions the device received. */
  datatype Outcome = Outcome(status: int, trace: seq<Submission>)

  /**
   * Submits `plan` in order to a device that has already received `n`
   * submissions, returning failure right after the first failing one.
   */
  function Submit(plan: seq<Submission>, answer: nat -> int, n: nat): (r: Outcome)
    ensures |r.trace| <= |plan| && (plan != [] ==> 1 <= |r.trace|)
    ensures r.status == Success || r.status == OperationFailed
    ensures r.status == Success ==> |r.trace| == |plan|
    ensures r.status == OperationFailed ==> 1 <= |r.trace| && !Accepted(answer, n + |r.trace| - 1)
    decreases |plan|
  {
    if plan == [] then Outcome(Success, [])
    else if answer(n) < 0 then Outcome(OperationFailed, [plan[0]])
    else
      var rest := Submit(plan[1..], answer, n + 1);
      Outcome(rest.status, [plan[0]] + rest.trace)
  }

  /** The device accepts its k-th submission. */
  predicate Accepted(answer: nat -> int, k: nat)
  {
    answer(k) >= 0
  }

  /**
   * The submissions made are the first ones of the plan, at least one when
   * there is any, and the status is success exactly when every one of them
   * is accepted, in which case the whole plan was submitted.
   */
  lemma {:induction false} SubmitTrace(plan: seq<Submission>, answer: nat -> int, n: nat)
    ensures var out := Submit(plan, answer, n);
            |out.trace| <= |plan| && out.trace == plan[..|out.trace|]
            && (plan != [] ==> 1 <= |out.trace|)
            && (out.status == Success || out.status == OperationFailed)
            && (out.status == Success <==> forall k :: n <= k < n + |plan| ==> Accepted(answer, k))
            && (out.status == Success ==> out.trace == plan)
    decreases |plan|
  {
    if plan != [] && answer(n) >= 0 {
      SubmitTrace(plan[1..], answer, n + 1);
      var rest := Submit(plan[1..], answer, n + 1);
      assert plan == [plan[0]] + plan[1..];
      assert [plan[0]] + rest.trace == plan[..1 + |rest.trace|];
      if rest.status == Success {
        assert forall k :: n <= k < n + |plan| ==> Accepted(answer, k) by {
          forall k | n <= k < n + |plan| ensures Accepted(answer, k) {
            if k > n { assert n + 1 <= k < n + 1 + |plan[1..]|; }
          }
        }
      } else {
        assert !(forall k :: n + 1 <= k < n + 1 + |plan[1..]| ==> Accepted(answer, k));
      }
    } else if plan != [] {
      assert !Accepted(answer, n);
    }
  }

  /**
   * A failed sequence stops right after its first failure: the last
   * submission made was refused and every one before it was accepted.
   */
  lemma {:induction false} SubmitStopsAtFirstFailure(plan: seq<Submission>, answer: nat -> int, n: nat)
    requires Submit(plan, answer, n).status != Success
    ensures var out := Submit(plan, answer, n);
            1 <= |out.trace| && !Accepted(answer, n + |out.trace| - 1)
            && forall k :: n <= k < n + |out.trace| - 1 ==> Accepted(answer, k)
    decreases |plan|
  {
    if answer(n) >= 0 {
      SubmitStopsAtFirstFailure(plan[1..], answer, n + 1);
    }
  }

  /** Submit on three blocks, spelled out: the early returns after each refused call. */
  lemma SubmitThree(a: Submission, b: Submission, c: Submission, answer: nat -> int, n: nat)
    ensures Submit([a, b, c], answer, n)
            == if answer(n) < 0 then Outcome(OperationFailed, [a])
               else if answer(n + 1) < 0 then Outcome(OperationFailed, [a, b])
               else if answer(n + 2) < 0 then Outcome(OperationFailed, [a, b, c])
               else Outcome(Success, [a, b, c])
  {
    assert [a, b, c][1..] == [b, c];
    assert [b, c][1..] == [c];
    assert [c][1..] == [];
    assert Submit([], answer, n + 3) == Outcome(Success, []);
    assert [c] + [] == [c];
    var last := Submit([c], answer, n + 2);
    assert last == if answer(n + 2) < 0 then Outcome(OperationFailed, [c]) else Outcome(Success, [c]);
    var tail := Submit([b, c], answer, n + 1);
    assert tail == if answer(n + 1) < 0 then Outcome(OperationFailed, [b])
                   else Outcome(last.status, [b] + last.trace);
  }

  /**
   * For the three blocks of a slice: PPS, SPS and slice params are submitted
   * in that order, each all zero; the sequence stops after the first refused
   * block, so 1, 2 or 3 calls are made; success means all three were accepted.
   */
  lemma SetControlsOutcome(surface: SurfaceParams, sizes: BlockSizes, answer: nat -> int, n: nat)
    ensures var out := Submit(Plan(surface, sizes), answer, n);
            |out.trace| == (if answer(n) < 0 then 1 else if answer(n + 1) < 0 then 2 else 3)
            && out.trace == Plan(surface, sizes)[..|out.trace|]
            && (out.status == Success <==> answer(n) >= 0 && answer(n + 1) >= 0 && answer(n + 2) >= 0)
            && (out.status != Success ==> out.status == OperationFailed)
            && (forall i :: 0 <= i < |out.trace| ==> out.trace[i].id == [HevcPps, HevcSps, HevcSliceParams][i])
            && forall i :: 0 <= i < |out.trace| ==> AllZero(out.trace[i].block)
  {
    var plan := Plan(surface, sizes);
    assert plan == [plan[0], plan[1], plan[2]];
    SubmitThree(plan[0], plan[1], plan[2], answer, n);
    var out := Submit(plan, answer, n);
    forall i | 0 <= i < |out.trace| ensures AllZero(out.trace[i].block) {
      assert out.trace[i] == plan[i];
    }
  }

  /** The transport of one decode request, answering from its oracle. */
  class Device {
    /** The return code of the n-th submission to this request. */
    const answer: nat -> int
    /** Every submission received so far, oldest first. */
    var submitted: seq<Submission>

    constructor (answer: nat -> int)
      ensures this.answer == answer && submitted == []
    {
      this.answer := answer;
      submitted := [];
    }

    /** Hands one control block to the device. */
    method SetControl(id: ControlId, block: seq<bv8>) returns (rc: int)
      modifies this
      ensures submitted == old(submitted) + [Submission(id, block)]
      ensures rc == answer(|old(submitted)|)
    {
      rc := answer(|submitted|);
      submitted := submitted + [Submission(id, block)];
    }
  }

  /**
   * Fills and submits PPS, then SPS, then slice params; at the first refused
   * submission returns failure without filling or submitting the later blocks.
   * The slice's bytes are read only once PPS and SPS have been accepted.
   */
  method SetControls(dev: Device, surface: SurfaceParams, sizes: BlockSizes) returns (status: int)
    requires dev.answer(|dev.submitted|) >= 0 && dev.answer(|dev.submitted| + 1) >= 0 ==> SliceFits(surface)
    modifies dev
    ensures var out := Submit(Plan(surface, sizes), dev.answer, |old(dev.submitted)|);
            status == out.status && dev.submitted == old(dev.submitted) + out.trace
  {
    ghost var n := |dev.submitted|;
    ghost var plan := Plan(surface, sizes);
    assert plan == [plan[0], plan[1], plan[2]];
    SubmitThree(plan[0], plan[1], plan[2], dev.answer, n);

    var pps := FillPps(surface, sizes.pps);
    var rc := dev.SetControl(HevcPps, pps);
    if rc < 0 {
      return OperationFailed;
    }

    var sps := FillSps(surface, sizes.sps);
    rc := dev.SetControl(HevcSps, sps);
    if rc < 0 {
      return OperationFailed;
    }

    var _, _, _, sliceParams := FillSliceParams(surface, sizes.sliceParams);
    ZeroedUnique(sliceParams);
    rc := dev.SetControl(HevcSliceParams, sliceParams);
    if rc < 0 {
      return OperationFailed;
    }

    return Success;
  }

  /** A slice at byte 100 whose data starts 5 bytes in, in a bitstream of 200 bytes. */
  function ScenarioSurface(): (surface: SurfaceParams)
    ensures SliceFits(surface)
  {
    SurfaceParams(SliceParameters(100, 5), seq(200, _ => 0x80))
  }

  /** A device that accepts everything: success after exactly PPS, SPS, slice params. */
  method AllAcceptedScenario(sizes: BlockSizes) returns (status: int, calls: seq<ControlId>)
    ensures status == Success
    ensures calls == [HevcPps, HevcSps, HevcSliceParams]
  {
    var dev := new Device(_ => 0);
    status := SetControls(dev, ScenarioSurface(), sizes);
    SetControlsOutcome(ScenarioSurface(), sizes, dev.answer, 0);
    calls := seq(|dev.submitted|, i requires 0 <= i < |dev.submitted| reads dev => dev.submitted[i].id);
  }

  /** A device that refuses the SPS: failure after exactly PPS and SPS. */
  method SpsRefusedScenario(sizes: BlockSizes) returns (status: int, calls: seq<ControlId>)
    ensures status == OperationFailed
    ensures calls == [HevcPps, HevcSps]
  {
    var dev := new Device(k => if k == 1 then -1 else 0);
    status := SetControls(dev, ScenarioSurface(), sizes);
    SetControlsOutcome(ScenarioSurface(), sizes, dev.answer, 0);
    calls := seq(|dev.submitted|, i requires 0 <= i < |dev.submitted| reads dev => dev.submitted[i].id);
  }
}
