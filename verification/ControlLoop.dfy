/**
 The whole demo: voltage task, sensor task, communication task, network and
 receiver, run in any order. The network may lose, repeat and reorder datagrams and
 the sockets may refuse them. Next to the parts' own state the system records what
 was requested, taken, handed to the socket and received.
 */
module ControlLoop {
  import opened Machine
  import opened WireProtocol
  import VM = VoltageMonitor
  import WSS = WheelSpeedSensor
  import opened Comms
  import Receiver
  import ShippedSeed

  /** A request as its task posted it, and whether the queue had room. */
  datatype Posted = Posted(msg: CommsMsg, accepted: bool)

  datatype System = System(
    sweep: VM.Sweep, device: WSS.Device, queue: seq<CommsMsg>, locals: Locals,
    air: seq<seq<Byte>>, received: seq<WireMsg>,
    switches: seq<bool>, reports: seq<WSS.Report>, requests: seq<Posted>, taken: seq<CommsMsg>,
    attempts: seq<WireMsg>, airFrom: seq<nat>, receivedFrom: seq<nat>)

  datatype Step =
    | VoltagePeriod(spikesOn: bool)      // a pass of the voltage task
    | SensorPoll(gaps: WSS.Gaps)         // a pass of the sensor task, with what arrives meanwhile
    | Transmit(accepted: bool)           // a pass of the communication task; may the socket take the message?
    | Deliver(k: nat)                    // the receiver gets datagram k of those sent so far

  const POWER_ON := System(
    VM.START, WSS.InitDevice(WSS.RESET, [], []), [], FRESH, [], [], [], [], [], [], [], [], [])

  function PostTo(s: System, msg: CommsMsg): System {
    s.(queue := Post(s.queue, msg), requests := s.requests + [Posted(msg, |s.queue| < COMMS_QUEUE_LENGTH)])
  }

  /** What the voltage task posts for a published value. */
  function VoltageOf(v: VM.Sweep): CommsMsg {
    VoltageRequest(Signed(ToU32(v.millivolts)), if v.Spike() then 1 else 0)
  }

  function Voltage(s: System, spikesOn: bool): System {
    PostTo(s, VoltageOf(s.sweep)).(sweep := VM.Period(s.sweep, spikesOn), switches := s.switches + [spikesOn])
  }

  function Sense(s: System, gaps: WSS.Gaps): System {
    var (device, report) := WSS.PollDevice(s.device, gaps);
    var polled := s.(device := device, reports := s.reports + report);
    if report == [] then polled else PostTo(polled, SpeedRequest(report[0].wheelSpeed))
  }

  function Send(s: System, accepted: bool): System {
    if s.queue == [] then s else
      var msg := s.queue[0];
      var locals := Handle(s.locals, msg);
      var handled := s.(queue := s.queue[1..], taken := s.taken + [msg], locals := locals);
      if !msg.IsSpeed() then handled
      else if !accepted then handled.(attempts := s.attempts + [locals.wire])
      else handled.(attempts := s.attempts + [locals.wire],
                    air := s.air + [Encode(locals.wire)], airFrom := s.airFrom + [|s.attempts|])
  }

  function Receive(s: System, k: nat): System {
    if k < |s.air| && |s.air| == |s.airFrom| && |s.air[k]| == WIRE_MSG_SIZE then
      s.(received := s.received + [Decode(s.air[k])], receivedFrom := s.receivedFrom + [s.airFrom[k]])
    else s
  }

  function Next(s: System, step: Step): System {
    match step
    case VoltagePeriod(spikesOn) => Voltage(s, spikesOn)
    case SensorPoll(gaps) => Sense(s, gaps)
    case Transmit(accepted) => Send(s, accepted)
    case Deliver(k) => Receive(s, k)
  }

  function Run(steps: seq<Step>): System {
    if steps == [] then POWER_ON else Next(Run(steps[..|steps| - 1]), steps[|steps| - 1])
  }

  // ----- reading the record -----

  function Accepted(requests: seq<Posted>): seq<CommsMsg> {
    if requests == [] then [] else
      var earlier, last := Accepted(requests[..|requests| - 1]), requests[|requests| - 1];
      if last.accepted then earlier + [last.msg] else earlier
  }

  function Dropped(requests: seq<Posted>): nat {
    if requests == [] then 0 else
      Dropped(requests[..|requests| - 1]) + if requests[|requests| - 1].accepted then 0 else 1
  }

  /** All requests of one kind, in order, accepted or not. */
  function SpeedsRequested(requests: seq<Posted>): seq<I32> {
    if requests == [] then [] else
      var earlier, last := SpeedsRequested(requests[..|requests| - 1]), requests[|requests| - 1];
      if last.msg.IsSpeed() then earlier + [last.msg.wheelSpeed] else earlier
  }

  function VoltagesRequested(requests: seq<Posted>): seq<CommsMsg> {
    if requests == [] then [] else
      var earlier, last := VoltagesRequested(requests[..|requests| - 1]), requests[|requests| - 1];
      if last.msg.IsSpeed() then earlier else earlier + [last.msg]
  }

  function SpeedsReported(reports: seq<WSS.Report>): (speeds: seq<I32>)
    ensures |speeds| == |reports| && forall i :: 0 <= i < |reports| ==> speeds[i] == reports[i].wheelSpeed
  {
    if reports == [] then [] else SpeedsReported(reports[..|reports| - 1]) + [reports[|reports| - 1].wheelSpeed]
  }

  /** What the voltage task posts in its first k passes, for given switch positions. */
  function VoltagesPublished(switches: seq<bool>): seq<CommsMsg> {
    if switches == [] then [] else
      var earlier := switches[..|switches| - 1];
      VoltagesPublished(earlier) + [VoltageOf(SweepAfter(earlier))]
  }

  function SweepAfter(switches: seq<bool>): VM.Sweep {
    VM.After(VM.START, VM.Switch(switches), |switches|)
  }

  lemma SweepStep(earlier: seq<bool>, on: bool)
    ensures SweepAfter(earlier + [on]) == VM.Period(SweepAfter(earlier), on)
  {
    hide VM.Period;
    SamePast(earlier, on, |earlier|);
  }

  lemma {:induction false} SamePast(earlier: seq<bool>, on: bool, k: nat)
    requires k <= |earlier|
    ensures VM.After(VM.START, VM.Switch(earlier + [on]), k) == VM.After(VM.START, VM.Switch(earlier), k)
  {
    hide VM.Period;
    if k > 0 {
      SamePast(earlier, on, k - 1);
      assert VM.Switch(earlier + [on])(k - 1) == VM.Switch(earlier)(k - 1);
    }
  }

  // ----- what holds in every reachable state -----

  ghost predicate QueueInv(s: System) {
    && |s.queue| <= COMMS_QUEUE_LENGTH
    && Accepted(s.requests) == s.taken + s.queue
    && s.locals == After(s.taken)
    && s.attempts == Sent(s.taken)
  }

  ghost predicate SourceInv(s: System) {
    && s.sweep == SweepAfter(s.switches)
    && VoltagesRequested(s.requests) == VoltagesPublished(s.switches)
    && WSS.InOrder(s.device, s.reports)
    && s.device.serverStarts == 1
    && SpeedsRequested(s.requests) == SpeedsReported(s.reports)
  }

  ghost predicate NetInv(s: System) {
    && |s.airFrom| == |s.air|
    && (forall k :: 0 <= k < |s.air| ==> s.airFrom[k] < |s.attempts| && s.air[k] == Encode(s.attempts[s.airFrom[k]]))
    && |s.receivedFrom| == |s.received|
    && (forall k :: 0 <= k < |s.received| ==>
          s.receivedFrom[k] < |s.attempts| && s.received[k] == s.attempts[s.receivedFrom[k]])
  }

  lemma PostKeepsQueue(s: System, msg: CommsMsg)
    requires QueueInv(s)
    ensures QueueInv(PostTo(s, msg))
  {
    hide After, Sent;
    var posted := Posted(msg, |s.queue| < COMMS_QUEUE_LENGTH);
    assert (s.requests + [posted])[..|s.requests|] == s.requests;
    assert s.taken + (s.queue + [msg]) == (s.taken + s.queue) + [msg];
  }

  lemma SendKeepsQueue(s: System, accepted: bool)
    requires QueueInv(s) && s.queue != []
    ensures QueueInv(Send(s, accepted))
  {
    hide Handle, CommsMsg.IsSpeed;
    var msg := s.queue[0];
    assert (s.taken + [msg])[..|s.taken|] == s.taken;
    assert s.taken + s.queue == (s.taken + [msg]) + s.queue[1..];
  }

  lemma PostRecorded(s: System, msg: CommsMsg)
    ensures var requests := PostTo(s, msg).requests;
      && SpeedsRequested(requests) == SpeedsRequested(s.requests) + (if msg.IsSpeed() then [msg.wheelSpeed] else [])
      && VoltagesRequested(requests) == VoltagesRequested(s.requests) + (if msg.IsSpeed() then [] else [msg])
  {
    var posted := Posted(msg, |s.queue| < COMMS_QUEUE_LENGTH);
    assert (s.requests + [posted])[..|s.requests|] == s.requests;
  }

  lemma VoltageKeepsSource(s: System, spikesOn: bool)
    requires SourceInv(s)
    ensures SourceInv(Voltage(s, spikesOn))
  {
    hide WSS.InOrder, VM.Period, SweepAfter;
    PostRecorded(s, VoltageOf(s.sweep));
    assert (s.switches + [spikesOn])[..|s.switches|] == s.switches;
    SweepStep(s.switches, spikesOn);
  }

  lemma SenseKeepsSource(s: System, gaps: WSS.Gaps)
    requires SourceInv(s)
    ensures SourceInv(Sense(s, gaps))
  {
    hide WSS.InOrder, WSS.PollDevice, SweepAfter;
    WSS.PollKeepsOrder(s.device, gaps, s.reports);
    var (device, report) := WSS.PollDevice(s.device, gaps);
    if report != [] {
      assert report == [report[0]];
      assert (s.reports + report)[..|s.reports|] == s.reports;
      PostRecorded(s.(device := device, reports := s.reports + report), SpeedRequest(report[0].wheelSpeed));
    } else {
      assert s.reports + report == s.reports;
    }
  }

  lemma SendKeepsNet(s: System, accepted: bool)
    requires NetInv(s)
    ensures NetInv(Send(s, accepted))
  {
    hide Handle, Encode, CommsMsg.IsSpeed;
  }

  lemma ReceiveKeepsNet(s: System, k: nat)
    requires NetInv(s)
    ensures NetInv(Receive(s, k))
    ensures k < |s.air| ==> |Receive(s, k).received| == |s.received| + 1
  {
    hide Encode, Decode;
    if k < |s.air| {
      RoundTrip(s.attempts[s.airFrom[k]]);
    }
  }

  lemma {:induction false} Invariant(steps: seq<Step>)
    ensures QueueInv(Run(steps)) && SourceInv(Run(steps)) && NetInv(Run(steps))
  {
    hide Voltage, Sense, Send, Receive, QueueInv, SourceInv, NetInv;
    if steps == [] {
      PowerOnInvariant();
    } else {
      Invariant(steps[..|steps| - 1]);
      StepInvariant(Run(steps[..|steps| - 1]), steps[|steps| - 1]);
    }
  }

  lemma PowerOnInvariant()
    ensures QueueInv(POWER_ON) && SourceInv(POWER_ON) && NetInv(POWER_ON)
  {
    hide WSS.InOrder, WSS.InitDevice;
    WSS.WholeRun([], [], []);
  }

  lemma VoltageInvariant(s: System, spikesOn: bool)
    requires QueueInv(s) && SourceInv(s) && NetInv(s)
    ensures QueueInv(Voltage(s, spikesOn)) && SourceInv(Voltage(s, spikesOn)) && NetInv(Voltage(s, spikesOn))
  {
    hide After, Sent, SweepAfter, VM.Period, WSS.InOrder, VoltageOf, SourceInv, Accepted;
    PostKeepsQueue(s, VoltageOf(s.sweep));
    VoltageKeepsSource(s, spikesOn);
  }

  lemma SenseInvariant(s: System, gaps: WSS.Gaps)
    requires QueueInv(s) && SourceInv(s) && NetInv(s)
    ensures QueueInv(Sense(s, gaps)) && SourceInv(Sense(s, gaps)) && NetInv(Sense(s, gaps))
  {
    hide After, Sent, WSS.PollDevice, SourceInv, Accepted;
    SenseKeepsSource(s, gaps);
    var (device, report) := WSS.PollDevice(s.device, gaps);
    if report != [] {
      PostKeepsQueue(s.(device := device, reports := s.reports + report), SpeedRequest(report[0].wheelSpeed));
    }
  }

  lemma SendInvariant(s: System, accepted: bool)
    requires QueueInv(s) && SourceInv(s) && NetInv(s)
    ensures QueueInv(Send(s, accepted)) && SourceInv(Send(s, accepted)) && NetInv(Send(s, accepted))
  {
    hide QueueInv, NetInv, Handle, SweepAfter, WSS.InOrder, Encode;
    SendKeepsNet(s, accepted);
    if s.queue != [] {
      SendKeepsQueue(s, accepted);
    }
  }

  lemma ReceiveInvariant(s: System, k: nat)
    requires QueueInv(s) && SourceInv(s) && NetInv(s)
    ensures QueueInv(Receive(s, k)) && SourceInv(Receive(s, k)) && NetInv(Receive(s, k))
  {
    hide NetInv, After, Sent, SweepAfter, WSS.InOrder, Decode;
    ReceiveKeepsNet(s, k);
  }

  lemma StepInvariant(s: System, step: Step)
    requires QueueInv(s) && SourceInv(s) && NetInv(s)
    ensures QueueInv(Next(s, step)) && SourceInv(Next(s, step)) && NetInv(Next(s, step))
  {
    hide QueueInv, SourceInv, NetInv, Voltage, Sense, Send, Receive;
    match step
    case VoltagePeriod(spikesOn) => VoltageInvariant(s, spikesOn);
    case SensorPoll(gaps) => SenseInvariant(s, gaps);
    case Transmit(accepted) => SendInvariant(s, accepted);
    case Deliver(k) => ReceiveInvariant(s, k);
  }

  // ----- what each step does -----

  /** The value is posted as it is, flagged as a spike from 13000 on. */
  lemma VoltagePosted(v: VM.Sweep)
    requires 11000 <= v.millivolts <= 13000
    ensures VoltageOf(v) == CommsMsg(2, 0, v.millivolts, if v.millivolts >= 13000 then 1 else 0)
  {
  }

  function SwitchesIn(steps: seq<Step>): seq<bool> {
    if steps == [] then [] else
      var last, earlier := steps[|steps| - 1], SwitchesIn(steps[..|steps| - 1]);
      if last.VoltagePeriod? then earlier + [last.spikesOn] else earlier
  }

  function GapsIn(steps: seq<Step>): seq<WSS.Gaps> {
    if steps == [] then [] else
      var last, earlier := steps[|steps| - 1], GapsIn(steps[..|steps| - 1]);
      if last.SensorPoll? then earlier + [last.gaps] else earlier
  }

  lemma RunStep(steps: seq<Step>, step: Step)
    ensures Run(steps + [step]) == Next(Run(steps), step)
  {
    hide Next;
    assert (steps + [step])[..|steps|] == steps;
  }

  /**
   A pass of the communication task with a request waiting takes the oldest one. If it
   is a wheel speed, the message due is handed to the socket, and if the socket takes it
   exactly one datagram goes on the air, which reads as that message. Nothing else changes.
   */
  lemma TransmitStep(steps: seq<Step>, accepted: bool)
    ensures var s, t := Run(steps), Run(steps + [Transmit(accepted)]);
      && (s.queue == [] ==> t == s)
      && (s.queue != [] ==>
            var msg := s.queue[0];
            && t.queue == s.queue[1..] && t.taken == s.taken + [msg]
            && t.attempts == s.attempts + (if msg.kind == 2 then [] else [Expected(s.taken, msg.wheelSpeed)])
            && (if msg.kind != 2 && accepted then
                  && |t.air| == |s.air| + 1 && t.air[..|s.air|] == s.air
                  && |t.air[|s.air|]| == 11
                  && Decode(t.air[|s.air|]) == t.attempts[|t.attempts| - 1]
                  && t.airFrom == s.airFrom + [|t.attempts| - 1]
                else t.air == s.air && t.airFrom == s.airFrom))
      && t == s.(queue := t.queue, taken := t.taken, locals := t.locals,
                 attempts := t.attempts, air := t.air, airFrom := t.airFrom)
  {
    hide Handle, Expected, Encode, Decode, After;
    Invariant(steps);
    RunStep(steps, Transmit(accepted));
    var s := Run(steps);
    if s.queue != [] && s.queue[0].IsSpeed() {
      SendIsExpected(s.taken, s.queue[0]);
      HandleIsAfter(s.taken, s.queue[0]);
      RoundTrip(Handle(s.locals, s.queue[0]).wire);
    }
  }

  lemma HandleIsAfter(taken: seq<CommsMsg>, msg: CommsMsg)
    ensures After(taken + [msg]) == Handle(After(taken), msg)
  {
    hide Handle;
    assert (taken + [msg])[..|taken|] == taken;
  }

  /** A delivery of a datagram that was sent adds what it reads as, with its origin; nothing else changes. */
  lemma DeliverStep(steps: seq<Step>, k: nat)
    ensures var s, t := Run(steps), Run(steps + [Deliver(k)]);
      && (k >= |s.air| ==> t == s)
      && (k < |s.air| ==>
            && k < |s.airFrom| && |s.air[k]| == 11
            && t.received == s.received + [Decode(s.air[k])]
            && t.receivedFrom == s.receivedFrom + [s.airFrom[k]])
      && t == s.(received := t.received, receivedFrom := t.receivedFrom)
  {
    hide Decode, Encode;
    Invariant(steps);
    RunStep(steps, Deliver(k));
  }

  /** A pass of the voltage task posts its value, accepted with fewer than eight waiting, and moves the sweep on. */
  lemma VoltageStep(steps: seq<Step>, spikesOn: bool)
    ensures var s, t := Run(steps), Run(steps + [VoltagePeriod(spikesOn)]);
      && t.requests == s.requests + [Posted(VoltageOf(s.sweep), |s.queue| < 8)]
      && t.queue == (if |s.queue| < 8 then s.queue + [VoltageOf(s.sweep)] else s.queue)
      && t.switches == s.switches + [spikesOn]
      && t == s.(requests := t.requests, queue := t.queue, switches := t.switches, sweep := t.sweep)
  {
    hide VM.Period, VoltageOf;
    RunStep(steps, VoltagePeriod(spikesOn));
  }

  /** A pass of the sensor task posts the speed it reports, if any, in the same way. */
  lemma SensorStep(steps: seq<Step>, gaps: WSS.Gaps)
    ensures var s, t := Run(steps), Run(steps + [SensorPoll(gaps)]);
      var (device, report) := WSS.PollDevice(s.device, gaps);
      && t.device == device && t.reports == s.reports + report && |report| <= 1
      && (report == [] ==> t.requests == s.requests && t.queue == s.queue)
      && (report != [] ==>
            var msg := CommsMsg(1, report[0].wheelSpeed, 0, 0);
            && t.requests == s.requests + [Posted(msg, |s.queue| < 8)]
            && t.queue == if |s.queue| < 8 then s.queue + [msg] else s.queue)
      && t == s.(requests := t.requests, queue := t.queue, device := t.device, reports := t.reports)
  {
    hide WSS.PollDevice, WSS.InOrder, WSS.InitDevice;
    Invariant(steps);
    RunStep(steps, SensorPoll(gaps));
    WSS.PollKeepsOrder(Run(steps).device, gaps, Run(steps).reports);
  }

  /**
   However the tasks interleave, the sweep has run exactly the voltage periods among the
   steps and the driver exactly the polls, each voltage published is requested once, and
   so is each speed reported.
   */
  lemma {:induction false} SourcesRun(steps: seq<Step>)
    ensures var s := Run(steps);
      && s.switches == SwitchesIn(steps)
      && s.sweep == SweepAfter(SwitchesIn(steps))
      && (s.device, s.reports) == WSS.PollAll(POWER_ON.device, GapsIn(steps))
      && VoltagesRequested(s.requests) == VoltagesPublished(SwitchesIn(steps))
      && SpeedsRequested(s.requests) == SpeedsReported(s.reports)
  {
    hide Next, WSS.InitDevice, WSS.PollDevice, WSS.PollAll, SweepAfter, VoltageOf, QueueInv, NetInv;
    Invariant(steps);
    if steps == [] {
      WSS.PollByPoll(POWER_ON.device, [], WSS.Gaps([], [], [], [], [], []));
    } else {
      var earlier, last := steps[..|steps| - 1], steps[|steps| - 1];
      SourcesRun(earlier);
      assert steps == earlier + [last];
      match last
      case VoltagePeriod(spikesOn) => VoltageStep(earlier, spikesOn);
      case SensorPoll(gaps) =>
        SensorStep(earlier, gaps);
        WSS.PollByPoll(POWER_ON.device, GapsIn(earlier), gaps);
      case Transmit(accepted) => TransmitStep(earlier, accepted);
      case Deliver(k) => DeliverStep(earlier, k);
    }
  }

  /** No message goes on the air twice: the origins of the datagrams are strictly increasing. */
  lemma {:induction false} SentOnce(steps: seq<Step>)
    ensures var s := Run(steps); forall i, j :: 0 <= i < j < |s.airFrom| ==> s.airFrom[i] < s.airFrom[j]
  {
    hide VM.Period, WSS.PollDevice, VoltageOf, Handle, Encode, Decode, WSS.InitDevice;
    if steps != [] {
      SentOnce(steps[..|steps| - 1]);
      Invariant(steps[..|steps| - 1]);
    }
  }

  // ----- queue and numbering -----

  /** Every request was either dropped or accepted; what was accepted is queued, or a voltage taken, or a speed sent. */
  lemma {:induction false} RequestsAreAccountedFor(steps: seq<Step>)
    ensures var s := Run(steps);
      && Accepted(s.requests) == s.taken + s.queue
      && |s.queue| <= COMMS_QUEUE_LENGTH
      && Speeds(s.taken) <= Speeds(Accepted(s.requests))
      && |s.attempts| == |Speeds(s.taken)|
      && |s.requests| == Dropped(s.requests) + |s.queue| + Voltages(s.taken) + |s.attempts|
  {
    hide After, Sent, Handle, Next;
    Invariant(steps);
    var s := Run(steps);
    SpeedsOfPrefix(s.taken, s.queue);
    SentLength(s.taken);
    DroppedOrAccepted(s.requests);
    SpeedOrVoltage(s.taken);
  }

  function Voltages(taken: seq<CommsMsg>): nat {
    if taken == [] then 0 else
      Voltages(taken[..|taken| - 1]) + if taken[|taken| - 1].IsSpeed() then 0 else 1
  }

  lemma {:induction false} SpeedOrVoltage(taken: seq<CommsMsg>)
    ensures |taken| == Voltages(taken) + |Speeds(taken)|
  {
    if taken != [] {
      SpeedOrVoltage(taken[..|taken| - 1]);
    }
  }

  lemma {:induction false} DroppedOrAccepted(requests: seq<Posted>)
    ensures |requests| == Dropped(requests) + |Accepted(requests)|
  {
    if requests != [] {
      DroppedOrAccepted(requests[..|requests| - 1]);
    }
  }

  lemma {:induction false} SpeedsOfPrefix(taken: seq<CommsMsg>, queue: seq<CommsMsg>)
    ensures Speeds(taken) <= Speeds(taken + queue)
  {
    if queue == [] {
      assert taken + queue == taken;
    } else {
      var fewer := queue[..|queue| - 1];
      SpeedsOfPrefix(taken, fewer);
      assert (taken + queue)[..|taken + queue| - 1] == taken + fewer;
    }
  }

  /** The n-th message handed to the socket, from 0: its number, its speed and its header. */
  lemma {:induction false} AttemptsAreExpected(steps: seq<Step>, n: nat)
    requires n < |Run(steps).attempts|
    ensures var s := Run(steps);
      && n < |Speeds(s.taken)|
      && s.attempts[n] == Expected(s.taken[..SpeedPosition(s.taken, n)], Speeds(s.taken)[n])
      && s.attempts[n].seqnum == ToU32(n + 1)
      && s.attempts[n].wheelSpeed == Speeds(s.taken)[n]
  {
    hide After, Sent, Handle, Next, SpikePending;
    Invariant(steps);
    var s := Run(steps);
    SentLength(s.taken);
    SentIsExpected(s.taken, n);
  }

  // ----- end to end -----

  lemma ExpectedIsClassified(before: seq<CommsMsg>, wheelSpeed: I32)
    ensures Receiver.Classify(Expected(before, wheelSpeed)) ==
      if SpikePending(before) then Receiver.Bad(SpikeCount(before) % 3) else Receiver.Good
  {
    hide SpikePending;
  }

  /**
   Whatever was dropped, lost, repeated or reordered: a received message is rejected
   exactly if a spike was taken off the queue after the wheel speed sent before it, and
   the reason, as classified and as traced right behind the message, is the number of
   spikes taken before it modulo three. Its number and its speed are those it was sent with.
   */
  lemma {:induction false} EndToEnd(steps: seq<Step>, d: nat)
    requires d < |Run(steps).received|
    ensures var s := Run(steps);
      && d < |s.receivedFrom| && s.receivedFrom[d] < |Speeds(s.taken)|
      && var n := s.receivedFrom[d];
         var before := s.taken[..SpeedPosition(s.taken, n)];
         && Receiver.Classify(s.received[d]) ==
              (if SpikePending(before) then Receiver.Bad(SpikeCount(before) % 3) else Receiver.Good)
         && s.received[d].seqnum == ToU32(n + 1)
         && s.received[d].wheelSpeed == Speeds(s.taken)[n]
         && var trace, a := Receiver.Trace(s.received), |Receiver.Trace(s.received[..d])|;
            && a + 1 < |trace| && trace[a] == Receiver.ReceivedMsg(s.received[d])
            && (SpikePending(before) ==> trace[a + 1] == Receiver.InvalidMsg(SpikeCount(before) % 3))
            && (!SpikePending(before) ==> trace[a + 1].TargetVelocity?)
  {
    hide After, Sent, Handle, Next, SpikePending, Expected, Receiver.Trace, Receiver.Classify;
    Invariant(steps);
    var s := Run(steps);
    var n := s.receivedFrom[d];
    AttemptsAreExpected(steps, n);
    ExpectedIsClassified(s.taken[..SpeedPosition(s.taken, n)], Speeds(s.taken)[n]);
    Receiver.AnswerOf(s.received, d);
    Receiver.VerdictIs(s.received[d]);
  }

  /** How many of the received messages were sent with no spike pending. */
  function Unspoiled(taken: seq<CommsMsg>, from: seq<nat>): nat
    requires forall i :: 0 <= i < |from| ==> from[i] < |Speeds(taken)|
  {
    if from == [] then 0 else
      Unspoiled(taken, from[..|from| - 1])
        + if SpikePending(taken[..SpeedPosition(taken, from[|from| - 1])]) then 0 else 1
  }

  lemma {:induction false} GoodIsUnspoiled(taken: seq<CommsMsg>, from: seq<nat>, received: seq<WireMsg>)
    requires |from| == |received|
    requires forall i :: 0 <= i < |from| ==> from[i] < |Speeds(taken)|
    requires forall i :: 0 <= i < |from| ==>
      (Receiver.Classify(received[i]).Good? <==> !SpikePending(taken[..SpeedPosition(taken, from[i])]))
    ensures Receiver.GoodCount(received) == Unspoiled(taken, from)
  {
    hide SpikePending, Receiver.Classify, Speeds;
    if from != [] {
      GoodIsUnspoiled(taken, from[..|from| - 1], received[..|received| - 1]);
    }
  }

  /** The duty is ten for each received message that was sent with no spike pending, at most 1000. */
  lemma DutyEndToEnd(steps: seq<Step>)
    ensures var s := Run(steps);
      && (forall i :: 0 <= i < |s.receivedFrom| ==> s.receivedFrom[i] < |Speeds(s.taken)|)
      && var n := Unspoiled(s.taken, s.receivedFrom);
         Receiver.Duty(Receiver.GoodCount(s.received)) == (if n <= 100 then 10 * n else 1000)
  {
    hide After, Sent, Handle, Next, SpikePending, Speeds, Receiver.Classify;
    Invariant(steps);
    var s := Run(steps);
    forall d | 0 <= d < |s.received|
      ensures s.receivedFrom[d] < |Speeds(s.taken)|
        && (Receiver.Classify(s.received[d]).Good? <==> !SpikePending(s.taken[..SpeedPosition(s.taken, s.receivedFrom[d])]))
    {
      EndToEnd(steps, d);
    }
    GoodIsUnspoiled(s.taken, s.receivedFrom, s.received);
  }

  /** Where among all requested speeds the n-th accepted one stands. */
  function SpeedIndex(requests: seq<Posted>, n: nat): (i: nat)
    requires n < |Speeds(Accepted(requests))|
    ensures i < |SpeedsRequested(requests)|
    ensures SpeedsRequested(requests)[i] == Speeds(Accepted(requests))[n]
  {
    var earlier, last := requests[..|requests| - 1], requests[|requests| - 1];
    assert last.accepted ==> Accepted(requests)[..|Accepted(requests)| - 1] == Accepted(earlier);
    if n < |Speeds(Accepted(earlier))| then SpeedIndex(earlier, n) else |SpeedsRequested(earlier)|
  }

  /** Accepted speeds keep their order and none is counted twice. */
  lemma {:induction false} IndexGrows(requests: seq<Posted>, m: nat, n: nat)
    requires m < n < |Speeds(Accepted(requests))|
    ensures SpeedIndex(requests, m) < SpeedIndex(requests, n)
  {
    var earlier, last := requests[..|requests| - 1], requests[|requests| - 1];
    assert last.accepted ==> Accepted(requests)[..|Accepted(requests)| - 1] == Accepted(earlier);
    if n < |Speeds(Accepted(earlier))| {
      IndexGrows(earlier, m, n);
    }
  }

  /**
   The speed in a received message, good or bad, is that of one measurement polled from
   the sensor; messages sent later carry measurements polled later.
   */
  lemma SpeedsAreMeasured(steps: seq<Step>, d: nat)
    requires d < |Run(steps).received|
    ensures var s := Run(steps);
      && d < |s.receivedFrom| && s.receivedFrom[d] < |Speeds(Accepted(s.requests))|
      && var i := SpeedIndex(s.requests, s.receivedFrom[d]);
         && i < |s.device.taken|
         && WSS.Reads(s.device.taken[i].wheelSpeed, s.received[d].wheelSpeed)
    ensures var s := Run(steps);
      forall m: nat :: m < s.receivedFrom[d] ==>
        SpeedIndex(s.requests, m) < SpeedIndex(s.requests, s.receivedFrom[d])
  {
    hide After, Sent, Handle, Next, SpikePending, Expected, Speeds, Accepted, SpeedsRequested, WSS.Reads;
    EndToEnd(steps, d);
    Invariant(steps);
    var s := Run(steps);
    var n := s.receivedFrom[d];
    SpeedsOfPrefix(s.taken, s.queue);
    ReportedSpeed(s.device, s.reports, SpeedIndex(s.requests, n));
    forall m: nat | m < n ensures SpeedIndex(s.requests, m) < SpeedIndex(s.requests, n) {
      IndexGrows(s.requests, m, n);
    }
  }

  lemma ReportedSpeed(d: WSS.Device, reports: seq<WSS.Report>, i: nat)
    requires WSS.InOrder(d, reports) && i < |reports|
    ensures i < |d.taken| && WSS.Reads(d.taken[i].wheelSpeed, reports[i].wheelSpeed)
  {
    hide WSS.Reads, WSS.ReportOf, WSS.AnyBump;
    WSS.ReportDescribes(d.taken[i], WSS.AnyBump(d.taken[..i + 1]));
  }

  // ----- spikes on and off -----

  ghost predicate SpikesOff(steps: seq<Step>) {
    forall i :: 0 <= i < |steps| ==> steps[i].VoltagePeriod? ==> !steps[i].spikesOn
  }

  ghost predicate SpikesOn(steps: seq<Step>) {
    forall i :: 0 <= i < |steps| ==> steps[i].VoltagePeriod? ==> steps[i].spikesOn
  }

  lemma {:induction false} SwitchesOf(steps: seq<Step>, on: bool)
    requires if on then SpikesOn(steps) else SpikesOff(steps)
    ensures forall i :: 0 <= i < |Run(steps).switches| ==> Run(steps).switches[i] == on
  {
    hide WSS.PollDevice, Handle, VM.Period, VoltageOf;
    if steps != [] {
      SwitchesOf(steps[..|steps| - 1], on);
    }
  }

  lemma SweepIsQuiet(switches: seq<bool>)
    requires forall i :: 0 <= i < |switches| ==> !switches[i]
    ensures VM.MV_MIN <= SweepAfter(switches).millivolts < VM.MV_SPIKE
  {
    hide VM.Period;
    VM.StartIsSound();
    VM.RunIsSound(VM.START, VM.Switch(switches), |switches|);
  }

  lemma QuietVoltage(v: VM.Sweep)
    requires VM.MV_MIN <= v.millivolts < VM.MV_SPIKE
    ensures !VoltageOf(v).IsSpike() && VoltageOf(v).millivolts == v.millivolts
  {
  }

  /** With the switch always off nothing the voltage task publishes is a spike. */
  lemma {:induction false} NoSpikePublished(switches: seq<bool>)
    requires forall i :: 0 <= i < |switches| ==> !switches[i]
    ensures forall i :: 0 <= i < |VoltagesPublished(switches)| ==>
      && !VoltagesPublished(switches)[i].IsSpike()
      && VM.MV_MIN <= VoltagesPublished(switches)[i].millivolts < VM.MV_SPIKE
  {
    hide SweepAfter, VoltageOf, CommsMsg.IsSpike;
    if switches != [] {
      var earlier := switches[..|switches| - 1];
      NoSpikePublished(earlier);
      SweepIsQuiet(earlier);
      QuietVoltage(SweepAfter(earlier));
    }
  }

  lemma {:induction false} AcceptedVoltages(requests: seq<Posted>, i: nat)
    requires i < |Accepted(requests)| && !Accepted(requests)[i].IsSpeed()
    ensures Accepted(requests)[i] in VoltagesRequested(requests)
  {
    var earlier, last := requests[..|requests| - 1], requests[|requests| - 1];
    if i < |Accepted(earlier)| {
      AcceptedVoltages(earlier, i);
    }
  }

  /**
   With spikes off, on every run: no message is ever spoiled, the receiver never
   rejects one, and the duty is ten times the number of messages received, at most 1000.
   */
  lemma SpikesOffEndToEnd(steps: seq<Step>)
    requires SpikesOff(steps)
    ensures var s := Run(steps);
      && (forall d :: 0 <= d < |s.received| ==> Receiver.Classify(s.received[d]).Good?)
      && (forall n :: 0 <= n < |s.attempts| ==> WrongFields(s.attempts[n]) == 0)
      && Receiver.Duty(Receiver.GoodCount(s.received)) == (if |s.received| <= 100 then 10 * |s.received| else 1000)
  {
    hide Next, Sent, After, Handle;
    var s := Run(steps);
    NoSpikeTaken(steps);
    Invariant(steps);
    SentLength(s.taken);
    forall n | 0 <= n < |s.attempts| ensures WrongFields(s.attempts[n]) == 0 {
      NoSpikeNoFault(s.taken, n);
    }
    forall d | 0 <= d < |s.received| ensures Receiver.Classify(s.received[d]).Good? {
      assert WrongFields(s.attempts[s.receivedFrom[d]]) == 0;
    }
    Receiver.GoodCountBound(s.received);
  }

  lemma NoSpikeTaken(steps: seq<Step>)
    requires SpikesOff(steps)
    ensures forall i :: 0 <= i < |Run(steps).taken| ==> !Run(steps).taken[i].IsSpike()
  {
    hide Next, Sent, After, Handle, VoltageOf;
    var s := Run(steps);
    Invariant(steps);
    SwitchesOf(steps, false);
    NoSpikePublished(s.switches);
    forall i | 0 <= i < |s.taken| ensures !s.taken[i].IsSpike() {
      assert s.taken[i] == Accepted(s.requests)[i];
      if !s.taken[i].IsSpeed() {
        AcceptedVoltages(s.requests, i);
      }
    }
  }

  // ----- spikes keep coming -----

  lemma {:induction false} PublishedIs(switches: seq<bool>, k: nat)
    requires k < |switches|
    ensures |VoltagesPublished(switches)| == |switches|
    ensures VoltagesPublished(switches)[k] == VoltageOf(VM.After(VM.START, VM.Switch(switches), k))
  {
    hide VM.Period, VoltageOf;
    var earlier := switches[..|switches| - 1];
    PublishedLength(switches);
    PublishedLength(earlier);
    assert switches == earlier + [switches[|switches| - 1]];
    SamePast(earlier, switches[|switches| - 1], k);
    if k < |earlier| {
      PublishedIs(earlier, k);
    }
  }

  lemma {:induction false} PublishedLength(switches: seq<bool>)
    ensures |VoltagesPublished(switches)| == |switches|
  {
    hide VoltageOf, SweepAfter;
    if switches != [] {
      PublishedLength(switches[..|switches| - 1]);
    }
  }

  lemma {:induction false} SameSwitch(switches: seq<bool>, all: nat -> bool, k: nat)
    requires k <= |switches|
    requires forall i :: 0 <= i < |switches| ==> switches[i] == all(i)
    ensures VM.After(VM.START, VM.Switch(switches), k) == VM.After(VM.START, all, k)
  {
    hide VM.Period;
    if k > 0 {
      SameSwitch(switches, all, k - 1);
    }
  }

  /** With spikes on, among any 4008 voltage requests in a row there is a spike, in whatever order the tasks run. */
  lemma SpikeRequestsKeepComing(steps: seq<Step>, k: nat)
    requires SpikesOn(steps) && k + 4008 <= |VoltagesRequested(Run(steps).requests)|
    ensures exists j :: k <= j < k + 4008 && VoltagesRequested(Run(steps).requests)[j].IsSpike()
  {
    hide Next, Sent, Comms.After, Handle, VM.Period;
    var s := Run(steps);
    Invariant(steps);
    SwitchesOf(steps, true);
    PublishedLength(s.switches);
    var always := (j: nat) => true;
    var j := VM.NextSpike(always, k);
    SameSwitch(s.switches, always, j);
    PublishedIs(s.switches, j);
  }

  lemma PublishedWhenFrozen(switches: seq<bool>, k: nat)
    requires forall i :: 0 <= i < |switches| ==> !switches[i]
    requires 379 * 4007 <= k < |VoltagesPublished(switches)|
    ensures VoltagesPublished(switches)[k].millivolts == VM.MV_SPIKE - 1
  {
    hide VM.Period, VM.After, VoltagesPublished, VM.Switch;
    PublishedLength(switches);
    var never := (j: nat) => false;
    var visit, t := ShippedSeed.ShippedSeedFreezes(never);
    SameSwitch(switches, never, k);
    PublishedIs(switches, k);
    QuietVoltage(VM.After(VM.START, VM.Switch(switches), k));
  }

  /** With spikes off, from some request on every voltage posted is 12999: the shipped sweep has frozen. */
  lemma VoltageStandsStill(steps: seq<Step>, k: nat)
    requires SpikesOff(steps)
    requires 379 * 4007 <= k < |VoltagesRequested(Run(steps).requests)|
    ensures VoltagesRequested(Run(steps).requests)[k].millivolts == 12999
  {
    hide Run, VoltagesPublished, QueueInv, NetInv, WSS.InOrder;
    Invariant(steps);
    SwitchesOf(steps, false);
    PublishedWhenFrozen(Run(steps).switches, k);
  }

  /** Once a spike is taken off the queue, the next message handed to the socket is spoiled. */
  lemma SpikeSpoilsNext(steps: seq<Step>, i: nat, n: nat)
    requires i < |Run(steps).taken| && Run(steps).taken[i].IsSpike()
    requires n < |Run(steps).attempts|
    requires n == |Speeds(Run(steps).taken[..i])|
    ensures WrongFields(Run(steps).attempts[n]) == 1
  {
    hide Next, Sent, After, Handle, Run, SpikePending;
    AttemptsAreExpected(steps, n);
    var taken := Run(steps).taken;
    var p := SpeedPosition(taken, n);
    SpeedsMonotone(taken, p, i);
    PendingBefore(taken, i, p);
    OneFieldAtMost(taken[..p], Speeds(taken)[n]);
  }

  /** Between a spike and the position with as many speeds before it there is no speed. */
  lemma PendingBefore(taken: seq<CommsMsg>, i: nat, p: nat)
    requires i < p <= |taken| && taken[i].IsSpike() && |Speeds(taken[..p])| == |Speeds(taken[..i])|
    ensures SpikePending(taken[..p])
  {
    var before := taken[..p];
    assert before[i].IsSpike();
    forall j | i < j < p ensures !before[j].IsSpeed() {
      SpeedsMonotone(taken, i, j);
      SpeedsMonotone(taken, j, p);
    }
  }

  lemma SpeedsMonotone(taken: seq<CommsMsg>, a: nat, b: nat)
    requires a <= |taken| && b <= |taken|
    ensures a <= b ==> |Speeds(taken[..a])| <= |Speeds(taken[..b])|
    ensures a < b && taken[a].IsSpeed() ==> |Speeds(taken[..a])| < |Speeds(taken[..b])|
  {
    if a <= b {
      assert taken[..b] == taken[..a] + taken[a..b];
      SpeedsOfPrefix(taken[..a], taken[a..b]);
      if a < b && taken[a].IsSpeed() {
        assert taken[..a + 1][..a] == taken[..a];
        assert taken[..b] == taken[..a + 1] + taken[a + 1..b];
        SpeedsOfPrefix(taken[..a + 1], taken[a + 1..b]);
      }
    }
  }
}
