/** The AMI pointer shim: it hooks GetState of every simple pointer that sits on an
    AMI_EFIPOINTER_PROTOCOL device, polls the AMI relative position on a timer, smooths
    each sample (clamp, jitter filter, boost) and accumulates it until the next
    GetState reports and clears it. */
module AmiShimPointer {
  import opened Types
  import ShimSlots

  /** MAX_POINTERS. */
  const MaxPointers: nat := 6

  const Int32Min: int := -0x8000_0000
  const Int32Max: int := 0x7FFF_FFFF

  type Int32 = v: int | Int32Min <= v <= Int32Max

  /** Abs: the magnitude of an INT32, narrowed to the UINT8 it returns. */
  function Abs(v: Int32): (r: nat)
    ensures r < 256
    ensures -256 < v < 256 ==> (r == v || r == -v) && (r == 0 <==> v == 0)
    ensures -256 < v < 256 && v < 0 ==> r == -v
  {
    (if v < 0 then -(v as int) else v as int) % 256
  }

  /** InternalClamp. */
  function InternalClamp(v: Int32, min: Int32, max: Int32): (r: Int32)
    ensures min <= max ==> min <= r <= max
    ensures min <= v <= max ==> r == v
    ensures v > max ==> r == max
  {
    if v > max then max
    else if v < min then min
    else v
  }

  /** Clamping twice is clamping once, and clamping keeps the order of its inputs. */
  lemma ClampIdempotentMonotone(v: Int32, w: Int32, min: Int32, max: Int32)
    requires min <= max
    ensures InternalClamp(InternalClamp(v, min, max), min, max) == InternalClamp(v, min, max)
    ensures v <= w ==> InternalClamp(v, min, max) <= InternalClamp(w, min, max)
  {
  }

  /** The length of the jitter filter's history. */
  const HistoryLength: nat := 5

  /** The jitter filter's globals gIndex, gXCounts and gYCounts; a history entry is
      true when the axis was still the last time that slot was written. */
  datatype FilterState = FilterState(index: nat, xCounts: seq<bool>, yCounts: seq<bool>)

  predicate ValidFilter(f: FilterState) {
    f.index < HistoryLength && |f.xCounts| == HistoryLength && |f.yCounts| == HistoryLength
  }

  const InitialFilter := FilterState(0, [false, false, false, false, false], [false, false, false, false, false])

  /** Every slot of the history records stillness. */
  predicate AllStill(counts: seq<bool>) {
    forall i :: 0 <= i < |counts| ==> counts[i]
  }

  /** One axis of a sample: the UINT8 magnitude and the signed value. */
  datatype AxisMove = AxisMove(abs: nat, value: int)

  const NoMove := AxisMove(0, 0)

  /** One axis of AmiShimPointerFilterOut. */
  function FilterAxis(m: AxisMove, counts: seq<bool>, index: nat): (r: (AxisMove, seq<bool>))
    requires |counts| == HistoryLength && index < HistoryLength
    ensures |r.1| == HistoryLength
    ensures r.0 == m || (r.0 == NoMove && 0 < m.abs <= 2 && AllStill(counts))
    ensures 0 < m.abs <= 2 && AllStill(counts) ==> r.0 == NoMove
    ensures forall j :: 0 <= j < HistoryLength && j != index ==> r.1[j] == counts[j]
    ensures m.abs == 0 ==> r.1[index]
    ensures 0 < m.abs <= 2 ==> !r.1[index]
    ensures m.abs > 2 ==> r.1 == counts
  {
    if m.abs == 0 then (m, counts[index := true])
    else if m.abs <= 2 then
      (if AllStill(counts) then NoMove else m, counts[index := false])
    else (m, counts)
  }

  /** AmiShimPointerFilterOut: a move of one or two units on an axis is dropped when
      that axis was still in each of the last five filtered samples. */
  function FilterOut(f: FilterState, x: AxisMove, y: AxisMove): (r: (FilterState, AxisMove, AxisMove))
    requires ValidFilter(f)
    ensures ValidFilter(r.0) && r.0.index == (f.index + 1) % HistoryLength
    ensures (r.1, r.0.xCounts) == FilterAxis(x, f.xCounts, f.index)
    ensures (r.2, r.0.yCounts) == FilterAxis(y, f.yCounts, f.index)
  {
    var fx := FilterAxis(x, f.xCounts, f.index);
    var fy := FilterAxis(y, f.yCounts, f.index);
    (FilterState(if f.index < HistoryLength - 1 then f.index + 1 else 0, fx.1, fy.1), fx.0, fy.0)
  }

  /** The filter state after a series of samples, oldest first. */
  function FilterRun(f: FilterState, samples: seq<(AxisMove, AxisMove)>): (r: FilterState)
    requires ValidFilter(f)
    ensures ValidFilter(r)
  {
    if samples == [] then f
    else
      var last := samples[|samples| - 1];
      FilterOut(FilterRun(f, samples[..|samples| - 1]), last.0, last.1).0
  }

  /** How many slots past `start` slot `i` lies, going round the history. */
  function Offset(start: nat, i: nat): (d: nat)
    requires start < HistoryLength && i < HistoryLength
    ensures d < HistoryLength && (start + d) % HistoryLength == i
  {
    if i >= start then i - start else i + HistoryLength - start
  }

  /** After n samples with a still X axis (n at most five), the index has moved on n
      slots and each slot passed over records stillness. */
  lemma {:induction false} StillRunMarksHistory(f: FilterState, samples: seq<(AxisMove, AxisMove)>)
    requires ValidFilter(f) && |samples| <= HistoryLength
    requires forall k :: 0 <= k < |samples| ==> samples[k].0.abs == 0
    ensures FilterRun(f, samples).index == (f.index + |samples|) % HistoryLength
    ensures forall i :: 0 <= i < HistoryLength && Offset(f.index, i) < |samples| ==> FilterRun(f, samples).xCounts[i]
  {
    if samples != [] {
      var prefix := samples[..|samples| - 1];
      assert forall k :: 0 <= k < |prefix| ==> prefix[k] == samples[k];
      StillRunMarksHistory(f, prefix);
      var g := FilterRun(f, prefix);
      var last := samples[|samples| - 1];
      var h := FilterOut(g, last.0, last.1).0;
      assert FilterRun(f, samples) == h;
      StillSampleMarks(g, last.0, last.1);
      MarksStep(f.index, |prefix|, g, h);
    } else {
      assert f.index % HistoryLength == f.index;
    }
  }

  /** A sample with a still X axis marks the slot the filter had reached, leaves the
      other slots alone and moves the index on. */
  lemma StillSampleMarks(g: FilterState, x: AxisMove, y: AxisMove)
    requires ValidFilter(g) && x.abs == 0
    ensures var h := FilterOut(g, x, y).0;
      && h.xCounts[g.index]
      && (forall j :: 0 <= j < HistoryLength && j != g.index ==> h.xCounts[j] == g.xCounts[j])
      && h.index == (g.index + 1) % HistoryLength
  {
    var fx := FilterAxis(x, g.xCounts, g.index);
    assert FilterOut(g, x, y).0.xCounts == fx.1;
  }

  /** One still step of a run: if the first n slots past `start` record stillness and
      the next sample marks the slot reached, the first n + 1 slots do. */
  lemma MarksStep(start: nat, n: nat, g: FilterState, h: FilterState)
    requires ValidFilter(g) && ValidFilter(h) && start < HistoryLength && n < HistoryLength
    requires g.index == (start + n) % HistoryLength
    requires forall i :: 0 <= i < HistoryLength && Offset(start, i) < n ==> g.xCounts[i]
    requires h.xCounts[g.index]
    requires forall j :: 0 <= j < HistoryLength && j != g.index ==> h.xCounts[j] == g.xCounts[j]
    requires h.index == (g.index + 1) % HistoryLength
    ensures h.index == (start + n + 1) % HistoryLength
    ensures forall i :: 0 <= i < HistoryLength && Offset(start, i) < n + 1 ==> h.xCounts[i]
  {
    HistoryStep(start + n);
    OffsetOfIndex(start, n, g.index);
    forall i | 0 <= i < HistoryLength && Offset(start, i) < n + 1
      ensures h.xCounts[i]
    {
      if i != g.index {
        assert Offset(start, i) != n;
      }
    }
  }

  lemma HistoryStep(x: nat)
    ensures (x % HistoryLength + 1) % HistoryLength == (x + 1) % HistoryLength
  {
  }

  /** The slot reached after n steps from `start` lies n slots past it. */
  lemma OffsetOfIndex(start: nat, n: nat, i: nat)
    requires start < HistoryLength && n < HistoryLength && i == (start + n) % HistoryLength
    ensures Offset(start, i) == n
  {
  }

  /** Five still samples in a row arm the filter: the next one- or two-unit move on
      that axis is dropped, while a larger move always passes. */
  lemma StillnessSuppressesJitter(f: FilterState, samples: seq<(AxisMove, AxisMove)>, x: AxisMove, y: AxisMove)
    requires ValidFilter(f) && |samples| == HistoryLength
    requires forall k :: 0 <= k < |samples| ==> samples[k].0.abs == 0
    ensures 0 < x.abs <= 2 ==> FilterOut(FilterRun(f, samples), x, y).1 == NoMove
    ensures x.abs > 2 ==> FilterOut(FilterRun(f, samples), x, y).1 == x
  {
    StillRunMarksHistory(f, samples);
    var g := FilterRun(f, samples);
    assert AllStill(g.xCounts) by {
      forall i | 0 <= i < HistoryLength
        ensures g.xCounts[i]
      {
        assert Offset(f.index, i) < |samples|;
      }
    }
  }

  /** gAbsRange and gMultipliers of the default (non-AMI) smoothing. */
  const AbsRange: seq<int> := [80, 64, 48, 1]
  const Multipliers: seq<int> := [4, 3, 2, 1]

  /** The scan of AmiShimPointerBoostValue from table row `index` on: the first row
      whose range exceeds the magnitude supplies the multiplier. */
  function BoostFrom(value: int, absValue: int, index: nat): int
    requires index <= |AbsRange|
    decreases |AbsRange| - index
  {
    if index == |AbsRange| then value
    else if AbsRange[index] > absValue then value * Multipliers[index]
    else BoostFrom(value, absValue, index + 1)
  }

  /** AmiShimPointerBoostValue. Because the ranges decrease and the test is "range
      exceeds magnitude", only the first row can ever apply: magnitudes below 80 are
      quadrupled and the rest pass unchanged. */
  function BoostValue(value: int, absValue: int): (r: int)
    ensures absValue < 80 ==> r == 4 * value
    ensures absValue >= 80 ==> r == value
  {
    BoostFrom(value, absValue, 0)
  }

  /** The boost is not monotone: a 79-unit move outruns an 80-unit one. */
  lemma BoostJumpsAtEighty()
    ensures BoostValue(79, 79) == 316 && BoostValue(80, 80) == 80
  {
  }

  /** POSITION_STATE relative movement, or the movement a sample turns into. */
  datatype Movement = Movement(x: int, y: int, z: int)

  const NoMovement := Movement(0, 0, 0)

  /** The largest magnitude the clamp lets through, and the largest smoothed output. */
  const SmoothClamp: int := 96
  const SmoothedLimit: int := 316

  /** One axis after smoothing: a dropped move or the boosted clamped value. */
  predicate SmoothedAxis(raw: Int32, out: int) {
    var c := InternalClamp(raw, -SmoothClamp, SmoothClamp);
    && (out == 0 || out == BoostValue(c, Abs(c)))
    && -SmoothedLimit <= out <= SmoothedLimit
    && (out > 0 ==> raw > 0) && (out < 0 ==> raw < 0)
    && (raw > 2 || raw < -2 ==> out != 0)
  }

  /** AmiShimPointerSmooth, default branch: both axes clamped to ±96, Z dropped, the
      history untouched for a still sample, otherwise filtered and boosted. */
  function Smooth(f: FilterState, x: Int32, y: Int32): (r: (FilterState, Movement))
    requires ValidFilter(f)
    ensures ValidFilter(r.0) && r.1.z == 0
    ensures SmoothedAxis(x, r.1.x) && SmoothedAxis(y, r.1.y)
    ensures InternalClamp(x, -SmoothClamp, SmoothClamp) == 0 && InternalClamp(y, -SmoothClamp, SmoothClamp) == 0 ==>
      r == (f, NoMovement)
    ensures InternalClamp(x, -SmoothClamp, SmoothClamp) != 0 || InternalClamp(y, -SmoothClamp, SmoothClamp) != 0 ==>
      r.0.index == (f.index + 1) % HistoryLength
  {
    var cx := InternalClamp(x, -SmoothClamp, SmoothClamp);
    var cy := InternalClamp(y, -SmoothClamp, SmoothClamp);
    if cx == 0 && cy == 0 then (f, NoMovement)
    else
      var filtered := FilterOut(f, AxisMove(Abs(cx), cx), AxisMove(Abs(cy), cy));
      (filtered.0, Movement(BoostValue(filtered.1.value, filtered.1.abs), BoostValue(filtered.2.value, filtered.2.abs), 0))
  }

  /** Who GetState dispatches to: some firmware routine, or the shim's own hook. */
  datatype GetStateRoutine = FirmwareGetState(id: nat) | ShimGetState

  /** AMI_SHIM_POINTER_INSTANCE. Handles and protocol pointers are numbers, 0 for NULL;
      the INT32 accumulators are unbounded integers. */
  datatype Pointer = Pointer(
    deviceHandle: nat,
    efiPointer: nat,
    simplePointer: nat,
    originalGetState: Option<GetStateRoutine>,
    positionChanged: bool,
    positionX: int,
    positionY: int,
    positionZ: int)

  /** AMI_SHIM_POINTER, the parts the pointer logic uses. */
  datatype PointerShim = PointerShim(usageStarted: bool, filter: FilterState, pointers: seq<Pointer>)

  predicate ValidShim(s: PointerShim) {
    ValidFilter(s.filter) && |s.pointers| == MaxPointers
  }

  /** What GetPositionState returned for one device. */
  datatype PositionReading = PositionReading(changed: nat, absolute: nat, x: Int32, y: Int32, z: Int32)

  /** The handler smooths a device's sample only for an installed slot whose reading
      changed and is relative. */
  predicate Sampled(p: Pointer, reading: PositionReading) {
    p.deviceHandle != 0 && reading.changed == 1 && reading.absolute == 0
  }

  /** Adds a nonzero smoothed sample to a pointer's accumulators. */
  function Accumulate(p: Pointer, d: Movement): Pointer {
    if d == NoMovement then p
    else p.(positionX := p.positionX + d.x, positionY := p.positionY + d.y, positionZ := p.positionZ + d.z,
            positionChanged := true)
  }

  /** How one pointer may change during a poll: only a sampled one changes, only in
      its X and Y accumulators and its flag, by at most the smoothed limit per axis in
      the direction of its reading, and a reading beyond two units always registers. */
  predicate PolledFrom(p: Pointer, q: Pointer, reading: PositionReading) {
    var dx := q.positionX - p.positionX;
    var dy := q.positionY - p.positionY;
    && q == p.(positionX := q.positionX, positionY := q.positionY, positionChanged := q.positionChanged)
    && (!Sampled(p, reading) ==> q == p)
    && (Sampled(p, reading) ==>
          && SmoothedAxis(reading.x, dx) && SmoothedAxis(reading.y, dy)
          && (q.positionChanged <==> p.positionChanged || dx != 0 || dy != 0))
  }

  /** The poll loop of AmiShimPointerPositionHandler from slot `i` on; the filter
      history is shared by all devices and threaded through in slot order. */
  function PollFrom(f: FilterState, pointers: seq<Pointer>, readings: seq<PositionReading>, i: nat): (r: (FilterState, seq<Pointer>))
    requires ValidFilter(f) && |readings| == |pointers| && i <= |pointers|
    ensures ValidFilter(r.0) && |r.1| == |pointers|
    ensures forall j :: 0 <= j < i ==> r.1[j] == pointers[j]
    ensures forall j :: i <= j < |pointers| ==> PolledFrom(pointers[j], r.1[j], readings[j])
    decreases |pointers| - i
  {
    if i == |pointers| then (f, pointers)
    else
      var p := pointers[i];
      var reading := readings[i];
      if Sampled(p, reading) then
        var smoothed := Smooth(f, reading.x, reading.y);
        PollFrom(smoothed.0, pointers[i := Accumulate(p, smoothed.1)], readings, i + 1)
      else
        PollFrom(f, pointers, readings, i + 1)
  }

  /** AmiShimPointerPositionHandler. `readings` are the devices' GetPositionState
      results; nothing is polled before the first GetState call. */
  function PositionHandler(s: PointerShim, readings: seq<PositionReading>): (r: PointerShim)
    requires ValidShim(s) && |readings| == MaxPointers
    ensures ValidShim(r) && r.usageStarted == s.usageStarted
    ensures !s.usageStarted ==> r == s
    ensures s.usageStarted ==> forall j :: 0 <= j < MaxPointers ==> PolledFrom(s.pointers[j], r.pointers[j], readings[j])
  {
    if !s.usageStarted then s
    else
      var polled := PollFrom(s.filter, s.pointers, readings, 0);
      s.(filter := polled.0, pointers := polled.1)
  }

  /** What GetButtonState returned. */
  datatype ButtonReading = ButtonReading(changed: nat, left: bool, right: bool)

  /** EFI_SIMPLE_POINTER_STATE as filled in on success. */
  datatype PointerReport = PointerReport(movement: Movement, leftButton: bool, rightButton: bool)

  datatype UpdateResult = UpdateResult(status: Status, report: Option<PointerReport>, shim: PointerShim)

  /** The state GetState reads from: the first call starts usage and polls at once. */
  function Started(s: PointerShim, readings: seq<PositionReading>): (r: PointerShim)
    requires ValidShim(s) && |readings| == MaxPointers
    ensures ValidShim(r) && r.usageStarted
    ensures s.usageStarted ==> r == s
  {
    if s.usageStarted then s else PositionHandler(s.(usageStarted := true), readings)
  }

  /** AmiShimPointerUpdateState. */
  function UpdateState(s: PointerShim, index: nat, button: ButtonReading, readings: seq<PositionReading>): (r: UpdateResult)
    requires ValidShim(s) && index < MaxPointers && |readings| == MaxPointers
    ensures ValidShim(r.shim) && r.shim.usageStarted
    ensures var p := Started(s, readings).pointers[index];
      && (r.status == NotReady <==> button.changed == 0 && !p.positionChanged)
      && (r.status == NotReady ==> r.report.None? && r.shim == Started(s, readings))
      && (r.status != NotReady ==>
            && r.status == Success
            && r.report == Some(PointerReport(
                 if p.positionChanged then Movement(p.positionX, p.positionY, p.positionZ) else NoMovement,
                 button.changed != 0 && button.left, button.changed != 0 && button.right))
            && r.shim == Started(s, readings).(pointers := Started(s, readings).pointers[index := Cleared(p)]))
  {
    var started := Started(s, readings);
    var p := started.pointers[index];
    if button.changed == 0 && !p.positionChanged then
      UpdateResult(NotReady, None, started)
    else
      var movement := if p.positionChanged then Movement(p.positionX, p.positionY, p.positionZ) else NoMovement;
      var report := if button.changed != 0 then PointerReport(movement, button.left, button.right)
                    else PointerReport(movement, false, false);
      UpdateResult(Success, Some(report), started.(pointers := started.pointers[index := Cleared(p)]))
  }

  /** A pointer whose accumulated motion has been reported. */
  function Cleared(p: Pointer): (q: Pointer)
    ensures !q.positionChanged && q.positionX == 0 && q.positionY == 0 && q.positionZ == 0
    ensures q.deviceHandle == p.deviceHandle && q.simplePointer == p.simplePointer
  {
    p.(positionChanged := false, positionX := 0, positionY := 0, positionZ := 0)
  }

  /** Motion is reported once: right after a report, a call with no button change
      and no poll in between finds nothing to report. */
  lemma ReportedOnce(s: PointerShim, index: nat, button: ButtonReading, readings: seq<PositionReading>)
    requires ValidShim(s) && index < MaxPointers && |readings| == MaxPointers
    requires UpdateState(s, index, button, readings).status == Success
    ensures var next := UpdateState(s, index, button, readings).shim;
      UpdateState(next, index, ButtonReading(0, false, false), readings).status == NotReady
  {
  }

  /** A poll never drops motion that is still waiting for a report: a pointer whose
      position has changed keeps its flag, and its Z accumulator is never touched. */
  lemma PollAccumulates(s: PointerShim, readings: seq<PositionReading>, j: nat)
    requires ValidShim(s) && s.usageStarted && |readings| == MaxPointers && j < MaxPointers
    requires s.pointers[j].positionChanged
    ensures PositionHandler(s, readings).pointers[j].positionChanged
    ensures PositionHandler(s, readings).pointers[j].positionZ == s.pointers[j].positionZ
  {
    assert PolledFrom(s.pointers[j], PositionHandler(s, readings).pointers[j], readings[j]);
  }

  function SimplePointers(pointers: seq<Pointer>): (p: seq<nat>)
    ensures |p| == |pointers| && forall i :: 0 <= i < |pointers| ==> p[i] == pointers[i].simplePointer
  {
    seq(|pointers|, i requires 0 <= i < |pointers| => pointers[i].simplePointer)
  }

  /** Slot `i` is the first whose simple pointer is `thisProtocol`. */
  predicate FirstWith(pointers: seq<Pointer>, thisProtocol: nat, i: nat) {
    && i < |pointers| && pointers[i].simplePointer == thisProtocol
    && forall j :: 0 <= j < i ==> pointers[j].simplePointer != thisProtocol
  }

  /** AmiShimPointerGetState. `thisProtocol` is the caller's This (0 for NULL) and
      `stateGiven` says whether State is non-NULL. */
  function GetState(s: PointerShim, thisProtocol: nat, stateGiven: bool, button: ButtonReading, readings: seq<PositionReading>): (r: UpdateResult)
    requires ValidShim(s) && |readings| == MaxPointers
    ensures thisProtocol == 0 || !stateGiven ==> r == UpdateResult(InvalidParameter, None, s)
    ensures (forall i :: 0 <= i < MaxPointers ==> s.pointers[i].simplePointer != thisProtocol) ==>
      r == UpdateResult(InvalidParameter, None, s)
    ensures thisProtocol != 0 && stateGiven ==>
      forall i :: 0 <= i < MaxPointers && FirstWith(s.pointers, thisProtocol, i) ==>
        r == UpdateState(s, i, button, readings)
  {
    if thisProtocol == 0 || !stateGiven then UpdateResult(InvalidParameter, None, s)
    else
      match ShimSlots.FindFirst(SimplePointers(s.pointers), thisProtocol, 0)
      case None => UpdateResult(InvalidParameter, None, s)
      case Some(i) => UpdateState(s, i, button, readings)
  }

  function Handles(pointers: seq<Pointer>): seq<nat> {
    ShimSlots.HandlesOf(pointers, (p: Pointer) => p.deviceHandle)
  }

  /** The slot after a successful install: device, AMI protocol and simple pointer are
      recorded, and the routine found in the protocol is kept as the original unless it
      already is the shim's hook. The accumulators are left as they were. */
  function Installed(p: Pointer, deviceHandle: nat, efiPointer: nat, simplePointer: nat, current: GetStateRoutine): (q: Pointer)
    ensures q.originalGetState != Some(ShimGetState)
    ensures q.originalGetState.None? <==> current == ShimGetState
    ensures q.deviceHandle == deviceHandle && q.efiPointer == efiPointer && q.simplePointer == simplePointer
    ensures q.positionX == p.positionX && q.positionY == p.positionY && q.positionZ == p.positionZ
  {
    p.(deviceHandle := deviceHandle, efiPointer := efiPointer, simplePointer := simplePointer,
       originalGetState := if current == ShimGetState then None else Some(current))
  }

  /** AmiShimPointerInstallOnHandle. `current` is the simple pointer's GetState before
      the call; afterwards it is `getState`. */
  method InstallOnHandle(pointers: seq<Pointer>, deviceHandle: nat, efiPointer: nat, simplePointer: nat, current: GetStateRoutine)
    returns (status: Status, r: seq<Pointer>, getState: GetStateRoutine)
    ensures (exists j: nat :: ShimSlots.Duplicate(Handles(pointers), deviceHandle, j)) ==>
      status == AlreadyStarted && r == pointers && getState == current
    ensures
      && (forall j: nat :: !ShimSlots.Duplicate(Handles(pointers), deviceHandle, j))
      && (forall i :: 0 <= i < |pointers| ==> pointers[i].deviceHandle != 0)
      ==> status == OutOfResources && r == pointers && getState == current
    ensures
      && (forall j: nat :: !ShimSlots.Duplicate(Handles(pointers), deviceHandle, j))
      && (exists i :: 0 <= i < |pointers| && pointers[i].deviceHandle == 0)
      ==> status == Success
    ensures status != Success ==> r == pointers && getState == current
    ensures status == Success ==>
      && getState == ShimGetState
      && exists i: nat :: ShimSlots.FirstFree(Handles(pointers), i) &&
           r == pointers[i := Installed(pointers[i], deviceHandle, efiPointer, simplePointer, current)]
  {
    var claim := ShimSlots.ClaimSlot(Handles(pointers), deviceHandle);
    match claim
    case AlreadyStarted =>
      return AlreadyStarted, pointers, current;
    case NoFreeSlot =>
      return OutOfResources, pointers, current;
    case Claimed(i) =>
      return Success, pointers[i := Installed(pointers[i], deviceHandle, efiPointer, simplePointer, current)], ShimGetState;
  }
}
