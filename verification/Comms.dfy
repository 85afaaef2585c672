/**
 The communication task (freertos/src/comms.c). Two other tasks post requests to a
 queue of eight that drops what does not fit. The task takes requests off one by
 one: a wheel speed is numbered and sent, a voltage spike makes it spoil one header
 field of the next message it sends, a different field after each spike.
 */
module Comms {
  import opened Machine
  import opened WireProtocol

  const MSG_TYPE_WHEEL_SPEED: Byte := 1
  const MSG_TYPE_VOLTAGE: Byte := 2
  const COMMS_QUEUE_LENGTH := 8

  datatype CommsMsg = CommsMsg(kind: Byte, wheelSpeed: I32, millivolts: I32, voltageSpike: Byte) {
    predicate WellFormed() {
      kind == MSG_TYPE_WHEEL_SPEED || kind == MSG_TYPE_VOLTAGE
    }

    predicate IsSpeed() {
      kind != MSG_TYPE_VOLTAGE
    }

    predicate IsSpike() {
      kind == MSG_TYPE_VOLTAGE && voltageSpike != 0
    }
  }

  function SpeedRequest(wheelSpeed: I32): CommsMsg {
    CommsMsg(MSG_TYPE_WHEEL_SPEED, wheelSpeed, 0, 0)
  }

  function VoltageRequest(millivolts: I32, voltageSpike: Byte): CommsMsg {
    CommsMsg(MSG_TYPE_VOLTAGE, 0, millivolts, voltageSpike)
  }

  /** Posting with no waiting time: accepted if there is room. */
  function Post(queue: seq<CommsMsg>, msg: CommsMsg): seq<CommsMsg> {
    if |queue| < COMMS_QUEUE_LENGTH then queue + [msg] else queue
  }

  /** With eight waiting a request is dropped, with fewer it is the last in the queue. */
  lemma EightWait(queue: seq<CommsMsg>, msg: CommsMsg)
    ensures |queue| >= 8 ==> Post(queue, msg) == queue
    ensures |queue| < 8 ==> Post(queue, msg) == queue + [msg]
  {
  }

  // ----- what the task does with one request -----

  /** The task's locals. */
  datatype Locals = Locals(wire: WireMsg, mutatorState: Byte, voltageSpiked: Byte)

  const FRESH := Locals(WireMsg(0, 0, 0, 0, 0), 0, 0)

  function Handle(l: Locals, msg: CommsMsg): Locals {
    if msg.kind == MSG_TYPE_VOLTAGE then
      if msg.voltageSpike != 0 then
        var bumped := (l.mutatorState + 1) % 0x100;
        l.(voltageSpiked := 1, mutatorState := if bumped == 3 then 0 else bumped)
      else l
    else
      var clean := WireMsg(WIRE_MAGIC0, WIRE_MAGIC1, WIRE_TYPE_WHEEL_SPEED, ToU32(l.wire.seqnum + 1), msg.wheelSpeed);
      if l.voltageSpiked != 0 then
        Locals(Mutate(clean, l.mutatorState), l.mutatorState, 0)
      else
        l.(wire := clean)
  }

  function Mutate(m: WireMsg, mutatorState: Byte): WireMsg {
    if mutatorState == 0 then m.(magic0 := Complement(m.magic0))
    else if mutatorState == 1 then m.(magic1 := Complement(m.magic1))
    else if mutatorState == 2 then m.(kind := WIRE_TYPE_WHEEL_SPEED + 1)
    else m
  }

  /** The locals after a list of requests, and the messages handed to the socket on the way. */
  function After(taken: seq<CommsMsg>): Locals {
    if taken == [] then FRESH else Handle(After(taken[..|taken| - 1]), taken[|taken| - 1])
  }

  function Sent(taken: seq<CommsMsg>): seq<WireMsg> {
    if taken == [] then [] else
      var earlier := Sent(taken[..|taken| - 1]);
      if taken[|taken| - 1].IsSpeed() then earlier + [After(taken).wire] else earlier
  }

  // ----- what should be sent, said without the locals -----

  /** The wheel speeds among the requests, in order. */
  function Speeds(taken: seq<CommsMsg>): seq<I32> {
    if taken == [] then [] else
      var last, earlier := taken[|taken| - 1], Speeds(taken[..|taken| - 1]);
      if last.IsSpeed() then earlier + [last.wheelSpeed] else earlier
  }

  function SpikeCount(taken: seq<CommsMsg>): nat {
    if taken == [] then 0 else
      SpikeCount(taken[..|taken| - 1]) + if taken[|taken| - 1].IsSpike() then 1 else 0
  }

  /** Is there a spike after the last wheel speed? */
  predicate SpikePending(taken: seq<CommsMsg>) {
    exists i :: 0 <= i < |taken| && taken[i].IsSpike() && forall j :: i < j < |taken| ==> !taken[j].IsSpeed()
  }

  /** The right message for a wheel speed that follows the given requests. */
  function Expected(before: seq<CommsMsg>, wheelSpeed: I32): WireMsg {
    var clean := WireMsg(0xAA, 0xBB, 0xF0, ToU32(|Speeds(before)| + 1), wheelSpeed);
    if !SpikePending(before) then clean
    else match SpikeCount(before) % 3
      case 0 => clean.(magic0 := 0x55)
      case 1 => clean.(magic1 := 0x44)
      case _ => clean.(kind := 0xF1)
  }

  /** Number of header fields that are not what a receiver expects. */
  function WrongFields(m: WireMsg): nat {
    (if m.magic0 == 0xAA then 0 else 1) + (if m.magic1 == 0xBB then 0 else 1) + (if m.kind == 0xF0 then 0 else 1)
  }

  /** The header of the right message: each field is clean, or the one due is its complement or the next type. */
  lemma ExpectedHeader(before: seq<CommsMsg>, wheelSpeed: I32)
    ensures var m := Expected(before, wheelSpeed);
      var due := if SpikePending(before) then SpikeCount(before) % 3 else 3;
      && m.magic0 == (if due == 0 then 255 - 0xAA else 0xAA)
      && m.magic1 == (if due == 1 then 255 - 0xBB else 0xBB)
      && m.kind == (if due == 2 then 0xF0 + 1 else 0xF0)
      && m.seqnum == (|Speeds(before)| + 1) % 0x1_0000_0000
      && m.wheelSpeed == wheelSpeed
  {
    hide SpikePending, SpikeCount, Speeds;
  }

  lemma OneFieldAtMost(before: seq<CommsMsg>, wheelSpeed: I32)
    ensures WrongFields(Expected(before, wheelSpeed)) == if SpikePending(before) then 1 else 0
  {
  }

  lemma NothingPending()
    ensures !SpikePending([])
  {
  }

  lemma PendingStep(earlier: seq<CommsMsg>, last: CommsMsg)
    ensures SpikePending(earlier + [last]) <==> last.IsSpike() || (!last.IsSpeed() && SpikePending(earlier))
  {
    var taken := earlier + [last];
    if last.IsSpike() {
      assert taken[|earlier|] == last;
    } else if !last.IsSpeed() && SpikePending(earlier) {
      var i :| 0 <= i < |earlier| && earlier[i].IsSpike() && forall j :: i < j < |earlier| ==> !earlier[j].IsSpeed();
      assert taken[i].IsSpike();
    } else if SpikePending(taken) {
      var i :| 0 <= i < |taken| && taken[i].IsSpike() && forall j :: i < j < |taken| ==> !taken[j].IsSpeed();
      assert i < |earlier|;
      assert !taken[|earlier|].IsSpeed();
      assert earlier[i].IsSpike();
      forall j | i < j < |earlier| ensures !earlier[j].IsSpeed() {
        assert !taken[j].IsSpeed();
      }
    }
  }

  /** The locals carry exactly: the number of messages sent, the spikes modulo 3, and whether one is pending. */
  lemma {:induction false} LocalsMean(taken: seq<CommsMsg>)
    ensures After(taken).mutatorState == SpikeCount(taken) % 3
    ensures After(taken).voltageSpiked == (if SpikePending(taken) then 1 else 0)
    ensures After(taken).wire.seqnum == ToU32(|Speeds(taken)|)
  {
    hide SpikePending, Handle;
    if taken != [] {
      var earlier, last := taken[..|taken| - 1], taken[|taken| - 1];
      LocalsMean(earlier);
      PendingStep(earlier, last);
      assert taken == earlier + [last];
      LocalsStep(After(earlier), last, SpikeCount(earlier), |Speeds(earlier)|);
    } else {
      NothingPending();
    }
  }

  lemma LocalsStep(l: Locals, last: CommsMsg, spikes: nat, speeds: nat)
    requires l.mutatorState == spikes % 3 && l.wire.seqnum == speeds % 0x1_0000_0000 && l.voltageSpiked <= 1
    ensures var next := Handle(l, last);
      && next.mutatorState == (if last.IsSpike() then spikes + 1 else spikes) % 3
      && next.wire.seqnum == (if last.IsSpeed() then speeds + 1 else speeds) % 0x1_0000_0000
      && next.voltageSpiked == (if last.IsSpike() then 1 else if last.IsSpeed() then 0 else l.voltageSpiked)
  {
  }

  lemma SendIsExpected(before: seq<CommsMsg>, msg: CommsMsg)
    requires msg.IsSpeed()
    ensures After(before + [msg]).wire == Expected(before, msg.wheelSpeed)
  {
    hide SpikePending;
    LocalsMean(before);
    assert (before + [msg])[..|before|] == before;
    var l := After(before);
    assert After(before + [msg]) == Handle(l, msg);
    SeqnumStep(l.wire.seqnum, |Speeds(before)|);
  }

  lemma SeqnumStep(seqnum: U32, n: nat)
    requires seqnum == ToU32(n)
    ensures ToU32(seqnum + 1) == ToU32(n + 1)
  {
  }

  /** Where among the requests the n-th wheel speed (from 0) stands. */
  function SpeedPosition(taken: seq<CommsMsg>, n: nat): (p: nat)
    requires n < |Speeds(taken)|
    ensures p < |taken| && taken[p].IsSpeed()
    ensures |Speeds(taken[..p])| == n
    ensures Speeds(taken)[n] == taken[p].wheelSpeed
  {
    var last := |taken| - 1;
    var earlier := taken[..last];
    if n < |Speeds(earlier)| then
      var p := SpeedPosition(earlier, n);
      assert earlier[..p] == taken[..p];
      p
    else last
  }

  /** Every message sent, in full, from the requests taken before it. */
  lemma {:induction false} SentIsExpected(taken: seq<CommsMsg>, n: nat)
    requires n < |Speeds(taken)|
    ensures |Sent(taken)| == |Speeds(taken)|
    ensures Sent(taken)[n] == Expected(taken[..SpeedPosition(taken, n)], Speeds(taken)[n])
  {
    SentLength(taken);
    var earlier, last := taken[..|taken| - 1], taken[|taken| - 1];
    if n < |Speeds(earlier)| {
      SentIsExpected(earlier, n);
      var p := SpeedPosition(earlier, n);
      assert earlier[..p] == taken[..p];
    } else {
      SentLength(earlier);
      SendIsExpected(earlier, last);
      assert taken == earlier + [last];
    }
  }

  lemma {:induction false} SentLength(taken: seq<CommsMsg>)
    ensures |Sent(taken)| == |Speeds(taken)|
  {
    if taken != [] {
      SentLength(taken[..|taken| - 1]);
    }
  }

  lemma {:induction false} NoSpikeNoFault(taken: seq<CommsMsg>, n: nat)
    requires n < |Speeds(taken)|
    requires forall i :: 0 <= i < |taken| ==> !taken[i].IsSpike()
    ensures |Sent(taken)| == |Speeds(taken)| && WrongFields(Sent(taken)[n]) == 0
  {
    SentIsExpected(taken, n);
    OneFieldAtMost(taken[..SpeedPosition(taken, n)], Speeds(taken)[n]);
  }

  // ----- the queue and the task, updated in place -----

  /**
   The global queue and the task's locals. The ghost history says which requests the
   queue ever accepted and which of them the task has taken off it.
   */
  class CommsTask {
    var queue: seq<CommsMsg>
    var wire: WireMsg
    var mutatorState: Byte
    var voltageSpiked: Byte
    ghost var accepted: seq<CommsMsg>
    ghost var taken: seq<CommsMsg>

    ghost predicate Valid()
      reads this
    {
      && |queue| <= COMMS_QUEUE_LENGTH
      && accepted == taken + queue
      && (forall i :: 0 <= i < |accepted| ==> accepted[i].WellFormed())
      && Locals(wire, mutatorState, voltageSpiked) == After(taken)
    }

    constructor ()
      ensures Valid() && accepted == taken == []
    {
      queue := [];
      wire := WireMsg(0, 0, 0, 0, 0);
      mutatorState := 0;
      voltageSpiked := 0;
      accepted, taken := [], [];
    }

    /** A full queue is reported and the request is dropped. */
    method SendSensorData(wheelSpeed: I32) returns (posted: bool)
      requires Valid()
      modifies this`queue, this`accepted
      ensures Valid()
      ensures posted == (|old(queue)| < COMMS_QUEUE_LENGTH)
      ensures queue == Post(old(queue), SpeedRequest(wheelSpeed))
      ensures accepted == if posted then old(accepted) + [SpeedRequest(wheelSpeed)] else old(accepted)
    {
      var msg := CommsMsg(MSG_TYPE_WHEEL_SPEED, wheelSpeed, 0, 0);
      posted := QueueSend(msg);
    }

    method SendVoltageData(millivolts: I32, voltageSpike: Byte) returns (posted: bool)
      requires Valid()
      modifies this`queue, this`accepted
      ensures Valid()
      ensures posted == (|old(queue)| < COMMS_QUEUE_LENGTH)
      ensures queue == Post(old(queue), VoltageRequest(millivolts, voltageSpike))
      ensures accepted == if posted then old(accepted) + [VoltageRequest(millivolts, voltageSpike)] else old(accepted)
    {
      var msg := CommsMsg(MSG_TYPE_VOLTAGE, 0, millivolts, voltageSpike);
      posted := QueueSend(msg);
    }

    method QueueSend(msg: CommsMsg) returns (posted: bool)
      requires Valid() && msg.WellFormed()
      modifies this`queue, this`accepted
      ensures Valid()
      ensures posted == (|old(queue)| < COMMS_QUEUE_LENGTH)
      ensures queue == Post(old(queue), msg)
      ensures accepted == if posted then old(accepted) + [msg] else old(accepted)
    {
      posted := |queue| < COMMS_QUEUE_LENGTH;
      if posted {
        queue := queue + [msg];
        accepted := accepted + [msg];
      }
    }

    /** Taking the oldest request; the caller blocks until there is one. */
    method Recv() returns (msg: CommsMsg)
      requires queue != []
      modifies this`queue
      ensures msg == old(queue)[0] && queue == old(queue)[1..]
    {
      msg := queue[0];
      queue := queue[1..];
    }

    /**
     One pass of the task's loop. A voltage request sends nothing; a wheel speed sends
     the one message that the requests taken so far call for.
     */
    method Iterate() returns (packet: seq<WireMsg>)
      requires Valid() && queue != []
      modifies this
      ensures Valid() && accepted == old(accepted)
      ensures taken == old(taken) + [old(queue)[0]] && queue == old(queue)[1..]
      ensures packet == if old(queue)[0].IsSpeed() then [Expected(old(taken), old(queue)[0].wheelSpeed)] else []
      ensures Sent(taken) == Sent(old(taken)) + packet
    {
      ghost var earlier := taken;
      var msg := Recv();
      taken := taken + [msg];
      assert taken[..|taken| - 1] == earlier;
      assert accepted == taken + queue;
      assert msg == accepted[|earlier|];
      packet := [];
      if msg.kind == MSG_TYPE_VOLTAGE {
        if msg.voltageSpike != 0 {
          voltageSpiked := 1;
          mutatorState := (mutatorState + 1) % 0x100;
          if mutatorState == 3 {
            mutatorState := 0;
          }
        }
        return;
      }
      assert msg.kind == MSG_TYPE_WHEEL_SPEED;  // the source's assertion on the type
      wire := wire.(magic0 := WIRE_MAGIC0);
      wire := wire.(magic1 := WIRE_MAGIC1);
      wire := wire.(kind := WIRE_TYPE_WHEEL_SPEED);
      wire := wire.(seqnum := ToU32(wire.seqnum + 1));
      wire := wire.(wheelSpeed := msg.wheelSpeed);
      if voltageSpiked != 0 {
        if mutatorState == 0 {
          wire := wire.(magic0 := Complement(wire.magic0));
        } else if mutatorState == 1 {
          wire := wire.(magic1 := Complement(wire.magic1));
        } else if mutatorState == 2 {
          wire := wire.(kind := WIRE_TYPE_WHEEL_SPEED + 1);
        }
        voltageSpiked := 0;
      }
      packet := [wire];
      SendIsExpected(earlier, msg);
    }
  }
}
