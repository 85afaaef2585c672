/**
 The wheel speed sensor and its driver: the register model of the peripheral
 (freertos/sensor_models/wss.py), which a network thread feeds with measurements,
 and the task that polls it (freertos/src/wss.c). Measurements may arrive before
 any single register access of a poll.
 */
module WheelSpeedSensor {
  import opened Machine

  const QUEUE_SIZE := 32

  // Control bits 1 (init), 4 (request measurement), 128 (use simulator);
  // status bits 1 (wheel speed valid), 2 (bump detected).
  const CTRL_INIT: nat := 1
  const CTRL_REQUEST_MEASUREMENT: nat := 4
  const CTRL_USING_SIMULATOR: nat := 128
  const STATUS_WHEEL_SPEED_VALID: nat := 1
  const STATUS_BUMP_DETECTED: nat := 2

  const CTRL: nat := 0x0
  const STATUS: nat := 0x4
  const SIM_TIME: nat := 0x8
  const SEQNUM: nat := 0xC
  const WHEEL_SPEED: nat := 0x10

  datatype Measurement = Measurement(simTimeNs: int, seqnum: int, bump: int, wheelSpeed: real)

  // ----- conversions -----

  function Clamp(v: real): real {
    var low := if v < 50.0 then v else 50.0;
    if low > -50.0 then low else -50.0
  }

  /** Python's int(): truncation towards zero. */
  function Truncate(x: real): int {
    if x >= 0.0 then x.Floor else -((-x).Floor)
  }

  /** rad/s to 1/1000 rad/s as a 32-bit register. */
  function WheelSpeedToRegVal(v: real): U32 {
    ToU32(Truncate(Clamp(v) * 1000.0))
  }

  function SimTimeToMs(ns: int): U32 {
    ToU32(ns / 1000000)
  }

  /** s is v rad/s in thousandths: held within 50 rad/s either way and cut off towards zero. */
  ghost predicate Reads(v: real, s: int) {
    && (v >= 50.0 ==> s == 50000)
    && (v <= -50.0 ==> s == -50000)
    && (0.0 <= v <= 50.0 ==> s as real <= v * 1000.0 < s as real + 1.0)
    && (-50.0 <= v <= 0.0 ==> s as real - 1.0 < v * 1000.0 <= s as real)
  }

  /** That determines s. */
  lemma ReadsIsUnique(v: real, s: int, t: int)
    requires Reads(v, s) && Reads(v, t)
    ensures s == t
  {
  }

  /** The register, taken as a signed number, is the speed in thousandths. */
  lemma SpeedReadsBack(v: real)
    ensures Reads(v, Signed(WheelSpeedToRegVal(v)))
    ensures -50000 <= Signed(WheelSpeedToRegVal(v)) <= 50000
  {
    var x := Clamp(v) * 1000.0;
    assert -50000.0 <= x <= 50000.0;
    assert -50000 <= Truncate(x) <= 50000;
    SignedOfSmall(Truncate(x));
  }

  /** The time register counts whole milliseconds and wraps at 32 bits. */
  lemma TimeReadsBack(ns: int)
    ensures exists wraps: int :: InMillisecond(ns, SimTimeToMs(ns), wraps)
    ensures 0 <= ns < 4294967296000000 ==> InMillisecond(ns, SimTimeToMs(ns), 0)
  {
    var wraps := ns / 1000000 / 0x1_0000_0000;
    assert InMillisecond(ns, SimTimeToMs(ns), wraps);
  }

  ghost predicate InMillisecond(ns: int, ms: int, wraps: int) {
    0 <= ns - 1000000 * (ms + 0x1_0000_0000 * wraps) < 1000000
  }

  lemma SignedOfSmall(i: int)
    requires -0x8000_0000 <= i < 0x8000_0000
    ensures Signed(ToU32(i)) == i
  {
  }

  lemma SpeedIsMonotone(v: real, w: real)
    requires v <= w
    ensures Signed(WheelSpeedToRegVal(v)) <= Signed(WheelSpeedToRegVal(w))
  {
    SpeedReadsBack(v);
    SpeedReadsBack(w);
  }

  // ----- the registers -----

  /** The value of a single bit. */
  type Bit = b: nat | b > 0 witness 1

  predicate HasBit(v: nat, b: Bit) {
    v / b % 2 == 1
  }

  function WithBit(v: nat, b: Bit): nat {
    if HasBit(v, b) then v else v + b
  }

  function WithBits(v: nat, bits: seq<Bit>): nat {
    if bits == [] then v else WithBit(WithBits(v, bits[..|bits| - 1]), bits[|bits| - 1])
  }

  function WithoutBit(v: nat, b: Bit): nat {
    if HasBit(v, b) && v >= b then v - b else v
  }

  /**
   The peripheral. Besides its variables it records which measurements it accepted,
   which of them a request took off the queue, and how often a server was started.
   */
  datatype Device = Device(
    simTimeNs: int, seqNum: int, bumpDetected: int, wheelSpeed: real, status: nat, queue: seq<Measurement>,
    accepted: seq<Measurement>, taken: seq<Measurement>, serverStarts: nat)

  const RESET := Device(0, 0, 0, 0.0, 0, [], [], [], 0)

  /** A measurement comes in from the network: queued, or dropped when the queue is full. */
  function Arrive(d: Device, m: Measurement): Device {
    if |d.queue| < QUEUE_SIZE then d.(queue := d.queue + [m], accepted := d.accepted + [m]) else d
  }

  function ArriveAll(d: Device, ms: seq<Measurement>): Device {
    if ms == [] then d else Arrive(ArriveAll(d, ms[..|ms| - 1]), ms[|ms| - 1])
  }

  /** The value a read request returns; at an unknown offset it keeps what was in the request. */
  function ReadValue(d: Device, offset: nat, value: U32): U32 {
    if offset == CTRL then 0
    else if offset == STATUS then ToU32(d.status)
    else if offset == SIM_TIME then SimTimeToMs(d.simTimeNs)
    else if offset == SEQNUM then ToU32(d.seqNum)
    else if offset == WHEEL_SPEED then WheelSpeedToRegVal(d.wheelSpeed)
    else value
  }

  /** Reading the status clears its valid bit; no other read changes anything. */
  function ReadEffect(d: Device, offset: nat): Device {
    if offset == STATUS then d.(status := WithoutBit(d.status, STATUS_WHEEL_SPEED_VALID)) else d
  }

  function Request(d: Device): Device {
    if d.queue == [] then d else
      var m := d.queue[0];
      var valid := WithBit(d.status, STATUS_WHEEL_SPEED_VALID);
      d.(queue := d.queue[1..], taken := d.taken + [m],
         simTimeNs := m.simTimeNs, seqNum := m.seqnum, bumpDetected := m.bump, wheelSpeed := m.wheelSpeed,
         status := if m.bump != 0 then WithBit(valid, STATUS_BUMP_DETECTED) else valid)
  }

  function WriteEffect(d: Device, offset: nat, value: U32): Device {
    if offset != CTRL then d else
      var d1 := if HasBit(value, CTRL_INIT) then d.(status := WithoutBit(d.status, STATUS_WHEEL_SPEED_VALID)) else d;
      var d2 := if HasBit(value, CTRL_REQUEST_MEASUREMENT) then Request(d1) else d1;
      if HasBit(value, CTRL_USING_SIMULATOR) then d2.(serverStarts := d2.serverStarts + 1) else d2
  }

  /** What the registers read, at their offsets. */
  lemma RegisterValues(d: Device, offset: nat, value: U32)
    ensures ReadValue(d, 0, value) == 0
    ensures d.status < 4 ==> ReadValue(d, 4, value) == d.status
    ensures exists wraps: int :: InMillisecond(d.simTimeNs, ReadValue(d, 8, value), wraps)
    ensures (d.seqNum - ReadValue(d, 12, value)) % 0x1_0000_0000 == 0
    ensures Reads(d.wheelSpeed, Signed(ReadValue(d, 16, value)))
    ensures offset !in {0, 4, 8, 12, 16} ==> ReadValue(d, offset, value) == value
    ensures offset != 4 ==> ReadEffect(d, offset) == d
  {
    hide SimTimeToMs, WheelSpeedToRegVal;
    TimeReadsBack(d.simTimeNs);
    SpeedReadsBack(d.wheelSpeed);
    var wraps: int :| InMillisecond(d.simTimeNs, SimTimeToMs(d.simTimeNs), wraps);
    assert InMillisecond(d.simTimeNs, ReadValue(d, 8, value), wraps);
  }

  /** After a request the status reads 1 for a measurement plus 2 for a bump, and the 1 is gone on a second read. */
  lemma StatusReads(d: Device, value: U32)
    requires d.status == 0 || d.status == 2
    ensures var bump := d.status == 2 || (d.queue != [] && d.queue[0].bump != 0);
      var e := Request(d);
      && ReadValue(e, 4, value) == (if d.queue != [] then 1 else 0) + (if bump then 2 else 0)
      && ReadValue(ReadEffect(e, 4), 4, value) == (if bump then 2 else 0)
  {
  }

  /** What a write to the control register does, bit by bit; a write elsewhere does nothing. */
  lemma WriteCases(d: Device, offset: nat, value: U32)
    requires d.status < 4
    ensures offset != 0 ==> WriteEffect(d, offset, value) == d
    ensures var e, polled := WriteEffect(d, 0, value), value / 4 % 2 == 1 && d.queue != [];
      && e.accepted == d.accepted && e.status < 4
      && e.serverStarts == d.serverStarts + value / 128 % 2
      && e.status % 2 == (if polled then 1 else if value % 2 == 1 then 0 else d.status % 2)
      && (!polled ==>
            && e.queue == d.queue && e.taken == d.taken && e.status / 2 == d.status / 2
            && (e.simTimeNs, e.seqNum, e.bumpDetected, e.wheelSpeed) == (d.simTimeNs, d.seqNum, d.bumpDetected, d.wheelSpeed))
      && (polled ==> var m := d.queue[0];
            && e.queue == d.queue[1..] && e.taken == d.taken + [m]
            && e.status / 2 == (if m.bump != 0 then 1 else d.status / 2)
            && (e.simTimeNs, e.seqNum, e.bumpDetected, e.wheelSpeed) == (m.simTimeNs, m.seqnum, m.bump, m.wheelSpeed))
  {
  }

  /** With thirty-two waiting a measurement is dropped, with fewer it is the last in the queue. */
  lemma ThirtyTwoWait(d: Device, m: Measurement)
    ensures |d.queue| >= 32 ==> Arrive(d, m) == d
    ensures |d.queue| < 32 ==> Arrive(d, m) == d.(queue := d.queue + [m], accepted := d.accepted + [m])
  {
  }

  // ----- the driver -----

  /** The measurements that arrive before each of the six register accesses of a poll. */
  datatype Gaps = Gaps(
    ctrlRead: seq<Measurement>, ctrlWrite: seq<Measurement>, status: seq<Measurement>,
    simTime: seq<Measurement>, seqnum: seq<Measurement>, wheelSpeed: seq<Measurement>)

  /** What a poll traces and, for the speed, sends on. */
  datatype Report = Report(simTimeMs: U32, seqnum: U32, wheelSpeed: I32, bump: bool)

  /** Read, modify and write the control register, with arrivals before both accesses. */
  function OrIntoControl(d: Device, gap1: seq<Measurement>, gap2: seq<Measurement>, bits: seq<Bit>): Device {
    var d1 := ArriveAll(d, gap1);
    var ctrl := ReadValue(d1, CTRL, 0);
    var d2 := ArriveAll(ReadEffect(d1, CTRL), gap2);
    WriteEffect(d2, CTRL, ToU32(WithBits(ctrl, bits)))
  }

  function InitDevice(d: Device, gap1: seq<Measurement>, gap2: seq<Measurement>): Device {
    OrIntoControl(d, gap1, gap2, [CTRL_INIT, CTRL_USING_SIMULATOR])
  }

  /** The rest of a poll: look at the status and, if it says so, read the three registers. */
  function ReadOut(d: Device, g: Gaps): (Device, seq<Report>) {
    var d1 := ArriveAll(d, g.status);
    var status := ReadValue(d1, STATUS, 0);
    var d2 := ReadEffect(d1, STATUS);
    if !HasBit(status, STATUS_WHEEL_SPEED_VALID) then (d2, []) else
      var d3 := ArriveAll(d2, g.simTime);
      var simTimeMs := ReadValue(d3, SIM_TIME, 0);
      var d4 := ArriveAll(ReadEffect(d3, SIM_TIME), g.seqnum);
      var seqnum := ReadValue(d4, SEQNUM, 0);
      var d5 := ArriveAll(ReadEffect(d4, SEQNUM), g.wheelSpeed);
      var wheelSpeed := Signed(ReadValue(d5, WHEEL_SPEED, 0));
      (ReadEffect(d5, WHEEL_SPEED), [Report(simTimeMs, seqnum, wheelSpeed, HasBit(status, STATUS_BUMP_DETECTED))])
  }

  function PollDevice(d: Device, g: Gaps): (Device, seq<Report>) {
    ReadOut(OrIntoControl(d, g.ctrlRead, g.ctrlWrite, [CTRL_REQUEST_MEASUREMENT]), g)
  }

  /** All polls of a run, one after another. */
  function PollAll(d: Device, gaps: seq<Gaps>): (Device, seq<Report>) {
    if gaps == [] then (d, []) else
      var (before, reports) := PollAll(d, gaps[..|gaps| - 1]);
      var (after, report) := PollDevice(before, gaps[|gaps| - 1]);
      (after, reports + report)
  }

  // ----- what it should come to, from the measurements alone -----

  predicate AnyBump(ms: seq<Measurement>) {
    exists i :: 0 <= i < |ms| && ms[i].bump != 0
  }

  function ReportOf(m: Measurement, bump: bool): Report {
    Report(ToU32(m.simTimeNs / 1000000), ToU32(m.seqnum), Truncate(Clamp(m.wheelSpeed) * 1000.0), bump)
  }

  /** The report's numbers are those of the measurement. */
  ghost predicate Describes(r: Report, m: Measurement) {
    && (exists wraps: int :: InMillisecond(m.simTimeNs, r.simTimeMs, wraps))
    && (m.seqnum - r.seqnum) % 0x1_0000_0000 == 0
    && Reads(m.wheelSpeed, r.wheelSpeed)
  }

  lemma ReportDescribes(m: Measurement, bump: bool)
    ensures Describes(ReportOf(m, bump), m) && ReportOf(m, bump).bump == bump
  {
    hide Clamp, Truncate;
    TimeReadsBack(m.simTimeNs);
    SpeedReadsBack(m.wheelSpeed);
    RegisterIsSpeed(m.wheelSpeed);
  }

  /** One report for each measurement, in order; a bump is reported from the first one with a bump on. */
  function Reports(ms: seq<Measurement>): (rs: seq<Report>)
    ensures |rs| == |ms|
    ensures forall i :: 0 <= i < |ms| ==> rs[i] == ReportOf(ms[i], AnyBump(ms[..i + 1]))
  {
    if ms == [] then [] else
      var earlier := ms[..|ms| - 1];
      assert forall k :: 0 <= k <= |earlier| ==> earlier[..k] == ms[..k];
      assert ms[..|ms|] == ms;
      Reports(earlier) + [ReportOf(ms[|ms| - 1], AnyBump(ms))]
  }

  // ----- a single poll -----

  /** The part of the arrivals that finds room behind n queued measurements. */
  function Fitting(n: nat, ms: seq<Measurement>): seq<Measurement>
    requires n <= QUEUE_SIZE
  {
    if n + |ms| <= QUEUE_SIZE then ms else ms[..QUEUE_SIZE - n]
  }

  lemma {:induction false} ArrivalsQueueUp(d: Device, ms: seq<Measurement>)
    requires |d.queue| <= QUEUE_SIZE
    ensures var fit := Fitting(|d.queue|, ms);
      ArriveAll(d, ms) == d.(queue := d.queue + fit, accepted := d.accepted + fit)
  {
    if ms != [] {
      var earlier, m := ms[..|ms| - 1], ms[|ms| - 1];
      ArrivalsQueueUp(d, earlier);
      var fit := Fitting(|d.queue|, earlier);
      if |d.queue| + |fit| < QUEUE_SIZE {
        assert Fitting(|d.queue|, ms) == fit + [m];
        assert (d.queue + fit) + [m] == d.queue + (fit + [m]);
        assert (d.accepted + fit) + [m] == d.accepted + (fit + [m]);
      } else {
        assert Fitting(|d.queue|, ms) == fit;
      }
    } else {
      assert d.queue + [] == d.queue && d.accepted + [] == d.accepted;
    }
  }

  /** Of a list of arrivals the first ones are accepted, until thirty-two wait. */
  lemma FittingIs(n: nat, ms: seq<Measurement>)
    requires n <= 32
    ensures Fitting(n, ms) == ms[..if |ms| <= 32 - n then |ms| else 32 - n]
  {
  }

  lemma FittingTwice(n: nat, a: seq<Measurement>, b: seq<Measurement>)
    requires n <= QUEUE_SIZE
    ensures |Fitting(n, a)| <= QUEUE_SIZE - n
    ensures Fitting(n, a) + Fitting(n + |Fitting(n, a)|, b) == Fitting(n, a + b)
  {
  }

  /** Nothing is left over from an earlier poll and the queue is within its bound. */
  predicate Idle(d: Device) {
    (d.status == 0 || d.status == 2) && |d.queue| <= QUEUE_SIZE
  }

  lemma ControlValues()
    ensures ToU32(WithBits(0, [4])) == 4 && ToU32(WithBits(0, [1, 128])) == 129
    ensures !HasBit(4, 1) && HasBit(4, 4) && !HasBit(4, 128)
    ensures HasBit(129, 1) && !HasBit(129, 4) && HasBit(129, 128)
  {
    assert [4][..0] == [] && [1, 128][..1] == [1] && [1][..0] == [];
    assert WithBits(0, [4]) == 4;
    assert WithBits(0, [1]) == 1;
    assert WithBits(0, [1, 128]) == 129;
  }

  /** The control register always reads 0, so the driver's read-modify-write writes just its own bits. */
  lemma ControlWrites(d: Device, gap1: seq<Measurement>, gap2: seq<Measurement>) returns (filled: Device)
    requires Idle(d)
    ensures var fit1 := Fitting(|d.queue|, gap1);
      var fit2 := Fitting(|d.queue| + |fit1|, gap2);
      filled == d.(queue := d.queue + fit1 + fit2, accepted := d.accepted + (fit1 + fit2))
    ensures OrIntoControl(d, gap1, gap2, [4]) == Request(filled)
    ensures InitDevice(d, gap1, gap2) == filled.(serverStarts := d.serverStarts + 1)
  {
    hide ArriveAll, WithBits, HasBit, ToU32, Request;
    ArrivalsQueueUp(d, gap1);
    ArrivalsQueueUp(ArriveAll(d, gap1), gap2);
    var fit1 := Fitting(|d.queue|, gap1);
    var fit2 := Fitting(|d.queue| + |fit1|, gap2);
    assert d.accepted + fit1 + fit2 == d.accepted + (fit1 + fit2);
    filled := ArriveAll(ArriveAll(d, gap1), gap2);
    ControlValues();
    assert WithoutBit(d.status, 1) == d.status by { IdleIsNotValid(d); }
  }

  lemma IdleIsNotValid(d: Device)
    requires Idle(d)
    ensures !HasBit(d.status, 1) && WithoutBit(d.status, 1) == d.status
  {
  }

  /** Only the queue has grown, by the arrivals that found room. */
  ghost predicate Grown(d: Device, e: Device, ms: seq<Measurement>)
    requires |d.queue| <= QUEUE_SIZE
  {
    var fit := Fitting(|d.queue|, ms);
    e == d.(queue := d.queue + fit, accepted := d.accepted + fit) && |e.queue| <= QUEUE_SIZE
  }

  lemma GrownTwice(d: Device, e: Device, ms: seq<Measurement>, more: seq<Measurement>)
    requires |d.queue| <= QUEUE_SIZE && Grown(d, e, ms)
    ensures Grown(d, ArriveAll(e, more), ms + more)
  {
    hide ArriveAll;
    ArrivalsQueueUp(e, more);
    FittingTwice(|d.queue|, ms, more);
    var fit, next := Fitting(|d.queue|, ms), Fitting(|e.queue|, more);
    assert (d.queue + fit) + next == d.queue + (fit + next);
    assert (d.accepted + fit) + next == d.accepted + (fit + next);
  }

  /** What arrives after the request of a poll: the later gaps exist only if there are registers to read. */
  function LateArrivals(g: Gaps, valid: bool): seq<Measurement> {
    if valid then g.status + g.simTime + g.seqnum + g.wheelSpeed else g.status
  }

  /** Late arrivals change the queue only, so what is read is what the request latched. */
  lemma ReadOutIsStable(d: Device, g: Gaps)
    requires d.status < 4 && |d.queue| <= QUEUE_SIZE
    ensures var (after, reports) := ReadOut(d, g);
      && Grown(d.(status := WithoutBit(d.status, 1)), after, LateArrivals(g, HasBit(d.status, 1)))
      && reports == if !HasBit(d.status, 1) then [] else
           [Report(SimTimeToMs(d.simTimeNs), ToU32(d.seqNum), Signed(WheelSpeedToRegVal(d.wheelSpeed)), HasBit(d.status, 2))]
  {
    hide SimTimeToMs, WheelSpeedToRegVal, Signed, ArriveAll, Fitting;
    ArrivalsQueueUp(d, g.status);
    FittingTwice(|d.queue|, g.status, []);
    var cleared := d.(status := WithoutBit(d.status, 1));
    var d2 := ReadEffect(ArriveAll(d, g.status), STATUS);
    assert Grown(cleared, d2, g.status);
    if HasBit(d.status, 1) {
      GrownTwice(cleared, d2, g.status, g.simTime);
      var d3 := ArriveAll(d2, g.simTime);
      GrownTwice(cleared, d3, g.status + g.simTime, g.seqnum);
      var d4 := ArriveAll(d3, g.seqnum);
      GrownTwice(cleared, d4, g.status + g.simTime + g.seqnum, g.wheelSpeed);
    }
  }

  /** What is waiting when a poll makes its request. */
  function Waiting(d: Device, g: Gaps): seq<Measurement>
    requires |d.queue| <= QUEUE_SIZE
  {
    d.queue + Fitting(|d.queue|, g.ctrlRead + g.ctrlWrite)
  }

  /**
   A poll that finds a measurement reports that one measurement and no other, however
   many arrive while its registers are being read; a poll that finds none reports nothing.
   Every arrival for which there is room is queued behind what is left.
   */
  lemma PollReports(d: Device, g: Gaps)
    requires Idle(d) && d.accepted == d.taken + d.queue
    ensures var (after, reports) := PollDevice(d, g);
      var waiting := Waiting(d, g);
      var rest := if waiting == [] then [] else waiting[1..];
      && Idle(after)
      && after.serverStarts == d.serverStarts
      && after.queue == rest + Fitting(|rest|, LateArrivals(g, waiting != []))
      && after.accepted == after.taken + after.queue
      && if waiting == [] then
           reports == [] && after.taken == d.taken && after.status == d.status
         else
           var bump := d.status == 2 || waiting[0].bump != 0;
           && reports == [ReportOf(waiting[0], bump)]
           && Describes(reports[0], waiting[0]) && reports[0].bump == bump
           && after.taken == d.taken + [waiting[0]]
           && after.status == if bump then 2 else 0
  {
    hide ReadOut, ArriveAll, OrIntoControl, WheelSpeedToRegVal, Clamp, Truncate, ToU32, HasBit, WithBit, WithoutBit, Signed;
    hide Describes, Fitting;
    var filled := ControlWrites(d, g.ctrlRead, g.ctrlWrite);
    var waiting := Waiting(d, g);
    FittingTwice(|d.queue|, g.ctrlRead, g.ctrlWrite);
    FittingTwice(|d.queue|, g.ctrlRead + g.ctrlWrite, []);
    var fit1 := Fitting(|d.queue|, g.ctrlRead);
    assert (d.queue + fit1) + Fitting(|d.queue| + |fit1|, g.ctrlWrite) == waiting;
    var requested := Request(filled);
    HistoryAfterRequest(d, filled);
    StatusAfterRequest(filled);
    ReadOutIsStable(requested, g);
    var late := Fitting(|requested.queue|, LateArrivals(g, waiting != []));
    assert requested.taken + requested.queue + late == requested.taken + (requested.queue + late);
    if waiting != [] {
      RegisterIsSpeed(waiting[0].wheelSpeed);
      ReportDescribes(waiting[0], d.status == 2 || waiting[0].bump != 0);
    }
  }

  lemma RegisterIsSpeed(v: real)
    ensures Signed(WheelSpeedToRegVal(v)) == Truncate(Clamp(v) * 1000.0)
  {
    SpeedReadsBack(v);
    SignedOfSmall(Truncate(Clamp(v) * 1000.0));
  }

  lemma HistoryAfterRequest(d: Device, filled: Device)
    requires d.accepted == d.taken + d.queue && filled.taken == d.taken
    requires d.queue <= filled.queue && filled.accepted == d.accepted + filled.queue[|d.queue|..]
    ensures Request(filled).accepted == Request(filled).taken + Request(filled).queue
    ensures d.accepted <= Request(filled).accepted
  {
    var waiting, late := filled.queue, filled.queue[|d.queue|..];
    assert waiting == d.queue + late;
    assert (d.taken + d.queue) + late == d.taken + (d.queue + late);
    if waiting != [] {
      assert waiting == [waiting[0]] + waiting[1..];
      assert d.taken + ([waiting[0]] + waiting[1..]) == (d.taken + [waiting[0]]) + waiting[1..];
    }
  }

  lemma StatusAfterRequest(d: Device)
    requires Idle(d)
    ensures var s := Request(d).status;
      && s < 4
      && HasBit(s, 1) == (d.queue != [])
      && HasBit(s, 2) == (d.status == 2 || (d.queue != [] && d.queue[0].bump != 0))
      && WithoutBit(s, 1) == (if HasBit(s, 2) then 2 else 0)
  {
  }

  // ----- whole runs -----

  /** One more poll adds exactly that poll's report to a run, none dropped and none made up. */
  lemma PollByPoll(d: Device, gaps: seq<Gaps>, g: Gaps)
    ensures PollAll(d, []) == (d, [])
    ensures var (before, reports) := PollAll(d, gaps);
      var (after, report) := PollDevice(before, g);
      PollAll(d, gaps + [g]) == (after, reports + report)
  {
    hide PollDevice;
    assert (gaps + [g])[..|gaps|] == gaps;
  }

  /** Every report so far is right, and nothing accepted is lost, repeated or out of order. */
  ghost predicate InOrder(d: Device, reports: seq<Report>) {
    && Idle(d)
    && d.accepted == d.taken + d.queue
    && reports == Reports(d.taken)
    && (d.status == 2 <==> AnyBump(d.taken))
  }

  lemma BumpStep(ms: seq<Measurement>, m: Measurement)
    ensures AnyBump(ms + [m]) <==> AnyBump(ms) || m.bump != 0
  {
    var all := ms + [m];
    assert all[|ms|] == m;
    assert forall i :: 0 <= i < |ms| ==> all[i] == ms[i];
  }

  lemma PollKeepsOrder(d: Device, g: Gaps, reports: seq<Report>)
    requires InOrder(d, reports)
    ensures var (after, report) := PollDevice(d, g);
      InOrder(after, reports + report) && after.serverStarts == d.serverStarts && |report| <= 1
  {
    hide PollDevice, ReportOf, AnyBump;
    PollReports(d, g);
    var (after, report) := PollDevice(d, g);
    if after.taken != d.taken {
      var m := Waiting(d, g)[0];
      BumpStep(d.taken, m);
      assert (d.taken + [m])[..|d.taken|] == d.taken;
      assert reports + [] == reports;
    } else {
      assert reports + [] == reports;
    }
  }

  /**
   From reset, through the driver's start-up, for any polls and any arrivals: the
   reports are those of a prefix of the accepted measurements, in order, the rest is
   still queued, and the simulator server was started exactly once.
   */
  lemma {:induction false} WholeRun(gap1: seq<Measurement>, gap2: seq<Measurement>, gaps: seq<Gaps>)
    ensures var (d, reports) := PollAll(InitDevice(RESET, gap1, gap2), gaps);
      InOrder(d, reports) && d.serverStarts == 1
  {
    hide PollDevice;
    if gaps == [] {
      hide InitDevice;
      var filled := ControlWrites(RESET, gap1, gap2);
    } else {
      hide InitDevice;
      var earlier := gaps[..|gaps| - 1];
      WholeRun(gap1, gap2, earlier);
      var (d, reports) := PollAll(InitDevice(RESET, gap1, gap2), earlier);
      PollKeepsOrder(d, gaps[|gaps| - 1], reports);
    }
  }

  /** What Idle's bits say: reports carry a bump from the first bump on and never before. */
  lemma BumpOnceAlways(taken: seq<Measurement>, i: nat, j: nat)
    requires i <= j < |taken|
    ensures taken[i].bump != 0 ==> Reports(taken)[j].bump
    ensures (forall k :: 0 <= k <= i ==> taken[k].bump == 0) ==> !Reports(taken)[i].bump
  {
    if taken[i].bump != 0 {
      assert taken[..j + 1][i].bump != 0;
    }
  }

  // ----- the peripheral and the driver, updated in place -----

  class Peripheral {
    var simTimeNs: int
    var seqNum: int
    var bumpDetected: int
    var wheelSpeed: real
    var status: nat
    var queue: seq<Measurement>
    ghost var accepted: seq<Measurement>
    ghost var taken: seq<Measurement>
    ghost var serverStarts: nat

    ghost function State(): Device
      reads this
    {
      Device(simTimeNs, seqNum, bumpDetected, wheelSpeed, status, queue, accepted, taken, serverStarts)
    }

    constructor ()
      ensures State() == RESET
    {
      simTimeNs, seqNum, bumpDetected, wheelSpeed, status := 0, 0, 0, 0.0, 0;
      queue := [];
      accepted, taken, serverStarts := [], [], 0;
    }

    method OnMessage(m: Measurement) returns (queued: bool)
      modifies this
      ensures State() == Arrive(old(State()), m)
      ensures queued == (|old(queue)| < QUEUE_SIZE)
    {
      queued := |queue| < QUEUE_SIZE;
      if queued {
        queue := queue + [m];
        accepted := accepted + [m];
      }
    }

    method Read(offset: nat, value: U32) returns (r: U32)
      modifies this
      ensures r == ReadValue(old(State()), offset, value)
      ensures State() == ReadEffect(old(State()), offset)
    {
      if offset == CTRL {
        r := 0;
      } else if offset == STATUS {
        r := ToU32(status);
        status := WithoutBit(status, STATUS_WHEEL_SPEED_VALID);
      } else if offset == SIM_TIME {
        r := SimTimeToMs(simTimeNs);
      } else if offset == SEQNUM {
        r := ToU32(seqNum);
      } else if offset == WHEEL_SPEED {
        r := WheelSpeedToRegVal(wheelSpeed);
      } else {
        r := value;
      }
    }

    method Write(offset: nat, value: U32)
      modifies this
      ensures State() == WriteEffect(old(State()), offset, value)
    {
      hide HasBit, WithBit, WithoutBit;
      if offset == CTRL {
        if HasBit(value, CTRL_INIT) {
          status := WithoutBit(status, STATUS_WHEEL_SPEED_VALID);
        }
        if HasBit(value, CTRL_REQUEST_MEASUREMENT) {
          if queue != [] {
            var msg := queue[0];
            queue := queue[1..];
            taken := taken + [msg];
            simTimeNs := msg.simTimeNs;
            seqNum := msg.seqnum;
            bumpDetected := msg.bump;
            wheelSpeed := msg.wheelSpeed;
            status := WithBit(status, STATUS_WHEEL_SPEED_VALID);
            if bumpDetected != 0 {
              status := WithBit(status, STATUS_BUMP_DETECTED);
            }
          }
        }
        if HasBit(value, CTRL_USING_SIMULATOR) {
          serverStarts := serverStarts + 1;
        }
      }
    }

    /** The network thread's deliveries between two register accesses. */
    method Arrivals(ms: seq<Measurement>)
      modifies this
      ensures State() == ArriveAll(old(State()), ms)
    {
      for k := 0 to |ms|
        invariant State() == ArriveAll(old(State()), ms[..k])
      {
        var _ := OnMessage(ms[k]);
        assert ms[..k + 1][..k] == ms[..k];
      }
      assert ms[..|ms|] == ms;
    }
  }

  /** The driver task; every register access is preceded by whatever arrives just then. */
  class Driver {
    const wss: Peripheral
    ghost var reported: seq<Report>

    /** All reports so far are those of the measurements polled, in order, each once. */
    ghost predicate Valid()
      reads this, wss
    {
      InOrder(wss.State(), reported) && wss.State().serverStarts == 1
    }

    constructor (peripheral: Peripheral)
      ensures wss == peripheral && reported == []
    {
      wss := peripheral;
      reported := [];
    }

    method OrControl(gap1: seq<Measurement>, gap2: seq<Measurement>, bits: seq<Bit>)
      modifies wss
      ensures wss.State() == OrIntoControl(old(wss.State()), gap1, gap2, bits)
    {
      wss.Arrivals(gap1);
      var ctrl := wss.Read(CTRL, 0);
      wss.Arrivals(gap2);
      wss.Write(CTRL, ToU32(WithBits(ctrl, bits)));
    }

    /** Start-up; on a peripheral just reset it establishes the invariant. */
    method Init(gap1: seq<Measurement>, gap2: seq<Measurement>)
      modifies wss
      ensures wss.State() == InitDevice(old(wss.State()), gap1, gap2)
      ensures old(wss.State()) == RESET && reported == [] ==> Valid()
    {
      hide InitDevice, InOrder;
      OrControl(gap1, gap2, [CTRL_INIT, CTRL_USING_SIMULATOR]);
      assert wss.State() == InitDevice(old(wss.State()), gap1, gap2) by { InitIs(old(wss.State()), gap1, gap2); }
      WholeRun(gap1, gap2, []);
    }

    /** One pass of the task's loop; the report's wheel speed is what is sent on. */
    method Poll(g: Gaps) returns (reports: seq<Report>)
      modifies this, wss
      ensures (wss.State(), reports) == PollDevice(old(wss.State()), g)
      ensures reported == old(reported) + reports
      ensures old(Valid()) ==> Valid() && |reports| <= 1
    {
      hide ArriveAll, WheelSpeedToRegVal, SimTimeToMs, Signed, WriteEffect, WithoutBit, WithBits, InOrder;
      ghost var d := wss.State();
      if Valid() {
        PollKeepsOrder(d, g, reported);
      }
      reports := [];
      OrControl(g.ctrlRead, g.ctrlWrite, [CTRL_REQUEST_MEASUREMENT]);
      wss.Arrivals(g.status);
      var status := wss.Read(STATUS, 0);
      if HasBit(status, STATUS_WHEEL_SPEED_VALID) {
        wss.Arrivals(g.simTime);
        var simTimeMs := wss.Read(SIM_TIME, 0);
        wss.Arrivals(g.seqnum);
        var seqnum := wss.Read(SEQNUM, 0);
        wss.Arrivals(g.wheelSpeed);
        var speed := wss.Read(WHEEL_SPEED, 0);
        reports := [Report(simTimeMs, seqnum, Signed(speed), HasBit(status, STATUS_BUMP_DETECTED))];
      }
      reported := reported + reports;
    }

    /** The loop, for as many polls as there are gaps given. */
    method Run(gaps: seq<Gaps>) returns (reports: seq<Report>)
      modifies this, wss
      ensures (wss.State(), reports) == PollAll(old(wss.State()), gaps)
      ensures reported == old(reported) + reports
      ensures old(Valid()) ==> Valid() && |reports| <= |gaps|
    {
      hide PollDevice, InOrder;
      reports := [];
      for k := 0 to |gaps|
        invariant (wss.State(), reports) == PollAll(old(wss.State()), gaps[..k])
        invariant reported == old(reported) + reports
        invariant old(Valid()) ==> Valid() && |reports| <= k
      {
        var report := Poll(gaps[k]);
        reports := reports + report;
        assert gaps[..k + 1][..k] == gaps[..k];
      }
      assert gaps[..|gaps|] == gaps;
    }
  }

  lemma InitIs(d: Device, gap1: seq<Measurement>, gap2: seq<Measurement>)
    ensures InitDevice(d, gap1, gap2) == OrIntoControl(d, gap1, gap2, [CTRL_INIT, CTRL_USING_SIMULATOR])
  {
  }
}
