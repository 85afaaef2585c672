/**
 The Linux side (linux/src/main.c and linux/actuator/actuator.cpp): it receives wire
 messages, rejects spoiled ones with a reason, and raises the duty by ten for every
 good one until it saturates. What it does is visible as a list of trace events and
 a list of velocity commands. Velocities are real numbers; rounding is not modelled.
 */
module Receiver {
  import opened Machine
  import opened WireProtocol

  const BAD_MAGIC0: Byte := 0
  const BAD_MAGIC1: Byte := 1
  const BAD_TYPE: Byte := 2

  datatype Verdict = Good | Bad(reason: Byte)

  function Classify(m: WireMsg): Verdict {
    if m.magic0 != WIRE_MAGIC0 then Bad(BAD_MAGIC0)
    else if m.magic1 != WIRE_MAGIC1 then Bad(BAD_MAGIC1)
    else if m.kind != WIRE_TYPE_WHEEL_SPEED then Bad(BAD_TYPE)
    else Good
  }

  datatype Event =
    | Startup
    | Init
    | ReceivedMsg(msg: WireMsg)
    | InvalidMsg(reason: Byte)
    | TargetVelocity(velocity: real)
    | SetPwm(seqnum: U32, duty: Word)
    | Deinit

  datatype Command = Command(seqnum: U32, velocity: real)

  function ClampedDuty(duty: Word): Word {
    if duty > 1000 then 1000 else duty
  }

  // ----- what a run should show, from the messages alone -----

  function GoodCount(msgs: seq<WireMsg>): nat {
    if msgs == [] then 0 else
      GoodCount(msgs[..|msgs| - 1]) + if Classify(msgs[|msgs| - 1]).Good? then 1 else 0
  }

  /** The duty after n good messages. */
  function Duty(n: nat): Word {
    if n <= 100 then 10 * n else 1000
  }

  function Velocity(n: nat): real {
    Duty(n) as real / 1000.0
  }

  /** The first n commands of a run that has not stopped: the one for standing still, then one per good message. */
  function Commands(n: nat): (commands: seq<Command>)
    ensures |commands| == n
    ensures forall k :: 0 <= k < n ==> commands[k] == Command(ToU32(k + 1), Velocity(k))
  {
    if n == 0 then [] else Commands(n - 1) + [Command(ToU32(n), Velocity(n - 1))]
  }

  /** What is traced after a message, given the number of good ones before it. */
  function Response(good: nat, m: WireMsg): seq<Event> {
    match Classify(m)
    case Bad(reason) => [InvalidMsg(reason)]
    case Good => [TargetVelocity(Velocity(good + 1)), SetPwm(ToU32(good + 2), Duty(good + 1))]
  }

  function Trace(msgs: seq<WireMsg>): seq<Event> {
    if msgs == [] then [Startup, Init, SetPwm(1, 0)] else
      var earlier, m := msgs[..|msgs| - 1], msgs[|msgs| - 1];
      Trace(earlier) + [ReceivedMsg(m)] + Response(GoodCount(earlier), m)
  }

  // ----- properties of that -----

  /** Velocities never fall and stay within 0..1 until the stop. */
  lemma VelocitiesRise(i: nat, j: nat)
    requires i <= j
    ensures 0.0 <= Velocity(i) <= Velocity(j) <= 1.0
    ensures Velocity(j) == 1.0 <==> j >= 100
    ensures Velocity(0) == 0.0
  {
  }

  /** The verdict, field by field in the order they are looked at. */
  lemma VerdictIs(m: WireMsg)
    ensures Classify(m) == Bad(0) <==> m.magic0 != 0xAA
    ensures Classify(m) == Bad(1) <==> m.magic0 == 0xAA && m.magic1 != 0xBB
    ensures Classify(m) == Bad(2) <==> m.magic0 == 0xAA && m.magic1 == 0xBB && m.kind != 0xF0
    ensures Classify(m) == Good <==> m.magic0 == 0xAA && m.magic1 == 0xBB && m.kind == 0xF0
  {
  }

  /** Velocity and duty after n good messages, with the numbers written out. */
  lemma DutyIs(n: nat)
    ensures Duty(n) == if 10 * n < 1000 then 10 * n else 1000
    ensures Velocity(n) * 1000.0 == Duty(n) as real
  {
  }

  lemma {:induction false} TraceGrows(msgs: seq<WireMsg>, d: nat)
    requires d <= |msgs|
    ensures Trace(msgs[..d]) <= Trace(msgs)
    decreases |msgs|
  {
    if d == |msgs| {
      assert msgs[..d] == msgs;
    } else {
      var earlier := msgs[..|msgs| - 1];
      TraceGrows(earlier, d);
      assert earlier[..d] == msgs[..d];
      assert Trace(earlier) <= Trace(msgs);
    }
  }

  /** What follows a received message in the trace: the one rejection that its fields call for, or a plan. */
  ghost predicate Answers(event: Event, m: WireMsg) {
    && (event == InvalidMsg(0) <==> m.magic0 != 0xAA)
    && (event == InvalidMsg(1) <==> m.magic0 == 0xAA && m.magic1 != 0xBB)
    && (event == InvalidMsg(2) <==> m.magic0 == 0xAA && m.magic1 == 0xBB && m.kind != 0xF0)
    && (event.TargetVelocity? <==> m.magic0 == 0xAA && m.magic1 == 0xBB && m.kind == 0xF0)
  }

  lemma ResponseAnswers(good: nat, m: WireMsg)
    ensures Response(good, m) != [] && Answers(Response(good, m)[0], m)
  {
    hide Velocity, Duty, ToU32;
  }

  /** The d-th message is traced behind what was traced for the earlier ones, and answered right behind. */
  lemma AnswerOf(msgs: seq<WireMsg>, d: nat)
    requires d < |msgs|
    ensures var a := |Trace(msgs[..d])|;
      && a + 1 < |Trace(msgs)|
      && Trace(msgs)[a] == ReceivedMsg(msgs[d])
      && Answers(Trace(msgs)[a + 1], msgs[d])
  {
    hide Response, Answers;
    var upTo, response := msgs[..d + 1], Response(GoodCount(msgs[..d]), msgs[d]);
    assert upTo[..d] == msgs[..d];
    TraceGrows(msgs, d + 1);
    ResponseAnswers(GoodCount(msgs[..d]), msgs[d]);
    assert Trace(upTo) == Trace(msgs[..d]) + [ReceivedMsg(msgs[d])] + response;
    assert Trace(upTo)[|Trace(msgs[..d])| + 1] == response[0];
  }

  /** The messages a trace says were received. */
  function ReceivedIn(trace: seq<Event>): seq<WireMsg> {
    if trace == [] then [] else
      var last, earlier := trace[|trace| - 1], ReceivedIn(trace[..|trace| - 1]);
      if last.ReceivedMsg? then earlier + [last.msg] else earlier
  }

  lemma {:induction false} ReceivedInMore(trace: seq<Event>, more: seq<Event>)
    ensures ReceivedIn(trace + more) == ReceivedIn(trace) + ReceivedIn(more)
  {
    if more == [] {
      assert trace + more == trace;
    } else {
      var fewer := more[..|more| - 1];
      ReceivedInMore(trace, fewer);
      assert (trace + more)[..|trace + more| - 1] == trace + fewer;
    }
  }

  /** Every message handled is traced, once and in order, and no other. */
  lemma {:induction false} TraceShowsMessages(msgs: seq<WireMsg>)
    ensures ReceivedIn(Trace(msgs)) == msgs
  {
    hide Response, ReceivedIn, Trace;
    if msgs == [] {
      StartReceivesNothing();
    } else {
      var earlier, m := msgs[..|msgs| - 1], msgs[|msgs| - 1];
      TraceShowsMessages(earlier);
      ReceivedInOne(Trace(earlier), m, Response(GoodCount(earlier), m)) by {
        ResponseReceivesNothing(GoodCount(earlier), m);
      }
      OneMoreMessage(earlier, m);
      assert msgs == earlier + [m];
    }
  }

  lemma StartReceivesNothing()
    ensures ReceivedIn(Trace([])) == []
  {
    NothingReceivedIn(Trace([]));
  }

  lemma ResponseReceivesNothing(good: nat, m: WireMsg)
    ensures ReceivedIn(Response(good, m)) == []
  {
    hide Velocity, Duty, ToU32, Classify;
    NothingReceivedIn(Response(good, m));
  }

  lemma ReceivedInOne(trace: seq<Event>, m: WireMsg, response: seq<Event>)
    requires ReceivedIn(response) == []
    ensures ReceivedIn(trace + [ReceivedMsg(m)] + response) == ReceivedIn(trace) + [m]
  {
    var last := [ReceivedMsg(m)];
    ReceivedInMore(trace + last, response);
    ReceivedInMore(trace, last);
    assert ReceivedIn(last) == ReceivedIn(last[..0]) + [m];
  }

  lemma {:induction false} NothingReceivedIn(trace: seq<Event>)
    requires forall i :: 0 <= i < |trace| ==> !trace[i].ReceivedMsg?
    ensures ReceivedIn(trace) == []
  {
    if trace != [] {
      NothingReceivedIn(trace[..|trace| - 1]);
    }
  }

  /** Every run begins with the two start-up events and a duty of zero under number 1. */
  lemma RunBegins(msgs: seq<WireMsg>)
    ensures |Trace(msgs)| >= 3
    ensures Trace(msgs)[0] == Startup && Trace(msgs)[1] == Init && Trace(msgs)[2] == SetPwm(1, 0)
  {
    TraceGrows(msgs, 0);
    assert msgs[..0] == [];
  }

  /** Between two messages received one after the other: a rejection, or a plan and then its actuation. */
  ghost predicate Reaction(between: seq<Event>) {
    || (|between| == 1 && between[0].InvalidMsg?)
    || (|between| == 2 && between[0].TargetVelocity? && between[1].SetPwm?
        && between[0].velocity == between[1].duty as real / 1000.0)
  }

  ghost predicate Consecutive(trace: seq<Event>, a: nat, b: nat) {
    && a < b < |trace|
    && trace[a].ReceivedMsg? && trace[b].ReceivedMsg?
    && forall c :: a < c < b ==> !trace[c].ReceivedMsg?
  }

  ghost predicate LastReceived(trace: seq<Event>, a: nat) {
    && a < |trace|
    && trace[a].ReceivedMsg?
    && forall c :: a < c < |trace| ==> !trace[c].ReceivedMsg?
  }

  ghost predicate ReactsBetween(trace: seq<Event>) {
    forall a: nat, b: nat :: Consecutive(trace, a, b) ==> Reaction(trace[a + 1..b])
  }

  ghost predicate ReactsToLast(trace: seq<Event>) {
    forall a: nat :: LastReceived(trace, a) ==> Reaction(trace[a + 1..])
  }

  ghost predicate Reacts(trace: seq<Event>) {
    ReactsBetween(trace) && ReactsToLast(trace)
  }

  /** In a longer trace the new message and its response come last. */
  lemma LongerTrace(trace: seq<Event>, m: WireMsg, response: seq<Event>)
    requires Reaction(response)
    ensures var longer := trace + [ReceivedMsg(m)] + response;
      && trace <= longer
      && longer[|trace|].ReceivedMsg?
      && longer[|trace| + 1..] == response
      && forall c :: |trace| < c < |longer| ==> !longer[c].ReceivedMsg?
  {
    var longer := trace + [ReceivedMsg(m)] + response;
    assert forall c :: |trace| < c < |longer| ==> longer[c] == response[c - |trace| - 1];
  }

  lemma BetweenAppend(trace: seq<Event>, longer: seq<Event>)
    requires Reacts(trace) && trace <= longer
    requires forall c :: |trace| < c < |longer| ==> !longer[c].ReceivedMsg?
    ensures ReactsBetween(longer)
  {
    hide Reaction, Reacts;
    forall a: nat, b: nat | Consecutive(longer, a, b) ensures Reaction(longer[a + 1..b]) {
      OldPair(trace, longer, a, b);
    }
  }

  lemma LastAppend(longer: seq<Event>, p: nat)
    requires p < |longer| && longer[p].ReceivedMsg? && Reaction(longer[p + 1..])
    requires forall c :: p < c < |longer| ==> !longer[c].ReceivedMsg?
    ensures ReactsToLast(longer)
  {
    hide Reaction;
    forall a: nat | LastReceived(longer, a) ensures Reaction(longer[a + 1..]) {
      assert a == p;
    }
  }

  lemma ReactsAppend(trace: seq<Event>, m: WireMsg, response: seq<Event>)
    requires Reacts(trace) && Reaction(response)
    ensures Reacts(trace + [ReceivedMsg(m)] + response)
  {
    hide Reaction, ReactsBetween, ReactsToLast;
    var longer := trace + [ReceivedMsg(m)] + response;
    LongerTrace(trace, m, response);
    BetweenAppend(trace, longer);
    LastAppend(longer, |trace|);
  }

  lemma OldPair(trace: seq<Event>, longer: seq<Event>, a: nat, b: nat)
    requires Reacts(trace) && trace <= longer
    requires Consecutive(longer, a, b) && b <= |trace|
    ensures Reaction(longer[a + 1..b])
  {
    forall c | a < c < b ensures !trace[c].ReceivedMsg? {
      assert longer[c] == trace[c];
    }
    assert longer[a + 1..b] == trace[a + 1..b];
    if b == |trace| {
      assert LastReceived(trace, a);
      assert trace[a + 1..b] == trace[a + 1..];
    } else {
      assert Consecutive(trace, a, b);
    }
  }

  /** Every received message is answered, and answered once, before the next one is received. */
  lemma {:induction false} EveryMessageIsAnswered(msgs: seq<WireMsg>)
    ensures Reacts(Trace(msgs))
  {
    if msgs != [] {
      var earlier, m := msgs[..|msgs| - 1], msgs[|msgs| - 1];
      EveryMessageIsAnswered(earlier);
      ReactsAppend(Trace(earlier), m, Response(GoodCount(earlier), m));
    }
  }

  /** The set-pwm event of a good message carries the number and the duty of the command sent for it. */
  lemma PwmMatchesCommand(earlier: seq<WireMsg>, m: WireMsg)
    requires Classify(m).Good?
    ensures var n := GoodCount(earlier + [m]);
      && n == GoodCount(earlier) + 1
      && Response(GoodCount(earlier), m)[1] == SetPwm(Commands(n + 1)[n].seqnum, Duty(n))
      && Response(GoodCount(earlier), m)[0] == TargetVelocity(Commands(n + 1)[n].velocity)
      && Commands(n + 1)[n].velocity == Duty(n) as real / 1000.0
  {
    assert (earlier + [m])[..|earlier|] == earlier;
  }

  lemma {:induction false} GoodCountBound(msgs: seq<WireMsg>)
    ensures GoodCount(msgs) <= |msgs|
    ensures (forall i :: 0 <= i < |msgs| ==> Classify(msgs[i]).Good?) ==> GoodCount(msgs) == |msgs|
  {
    if msgs != [] {
      GoodCountBound(msgs[..|msgs| - 1]);
    }
  }

  /** How the expected values move on with one more message. */
  lemma OneMoreMessage(earlier: seq<WireMsg>, m: WireMsg)
    ensures var good := GoodCount(earlier);
      && Trace(earlier + [m]) == Trace(earlier) + [ReceivedMsg(m)] + Response(good, m)
      && GoodCount(earlier + [m]) == (if Classify(m).Good? then good + 1 else good)
  {
    hide Response;
    assert (earlier + [m])[..|earlier|] == earlier;
  }

  lemma OneMoreGood(good: nat)
    ensures Commands(good + 2) == Commands(good + 1) + [Command(ToU32(good + 2), Velocity(good + 1))]
    ensures Duty(good) <= 1000 && Duty(good + 1) == ClampedDuty(Duty(good) + 10)
    ensures Velocity(good + 1) == Duty(good + 1) as real / 1000.0
    ensures ToU32(ToU32(good + 2) + 1) == ToU32(good + 3)
  {
    hide Commands;
    assert Commands(good + 2) == Commands(good + 1) + [Command(ToU32(good + 2), Velocity(good + 1))] by {
      CommandsStep(good + 1);
    }
  }

  lemma CommandsStep(n: nat)
    ensures Commands(n + 1) == Commands(n) + [Command(ToU32(n + 1), Velocity(n))]
  {
  }

  // ----- the program -----

  /** Publishes velocity commands under a running number. */
  class Actuator {
    var seqnum: U32
    var published: seq<Command>

    constructor ()
      ensures seqnum == 1 && published == []
    {
      seqnum := 0;
      published := [];
      new;
      seqnum := 1;
    }

    method SetVel(velocity: real)
      modifies this
      ensures published == old(published) + [Command(old(seqnum), velocity)]
      ensures seqnum == ToU32(old(seqnum) + 1)
    {
      published := published + [Command(seqnum, velocity)];
      seqnum := ToU32(seqnum + 1);
    }
  }

  /** The values of errno that the loop tells apart. */
  datatype Errno = Interrupted | TryAgain | OtherError

  /**
   What one pass of the loop meets: nothing to read, a wait that fails, a receive that
   fails although there was something to read, or a datagram. Handling a datagram calls
   the tracer and the publisher, which may leave any errno behind.
   */
  datatype Poll =
    | Nothing
    | WaitFails(error: Errno)
    | ReceiveFails(error: Errno)
    | Datagram(bytes: seq<Byte>, errnoAfter: Errno)
  {
    /** recv() fills at most one structure and cuts off the rest. */
    function Size(): nat
      requires Datagram?
    {
      if |bytes| < WIRE_MSG_SIZE then |bytes| else WIRE_MSG_SIZE
    }

    /** errno when the pass is over: a failing call sets it, a short datagram leaves it alone. */
    function ErrnoAfter(errno: Errno): Errno {
      match this
      case Nothing => errno
      case WaitFails(error) => error
      case ReceiveFails(error) => error
      case Datagram(bytes, after) => if |bytes| >= WIRE_MSG_SIZE then after else errno
    }

    /** One of the two assertions of the pass fails, given errno before it. */
    predicate Aborts(errno: Errno) {
      match this
      case Nothing => false
      case WaitFails(error) => error != Interrupted
      case ReceiveFails(error) => error != TryAgain
      case Datagram(bytes, _) => |bytes| < WIRE_MSG_SIZE && errno != TryAgain
    }

    /** The message this pass handles, if any. */
    function Message(): seq<WireMsg> {
      if Datagram? && |bytes| >= WIRE_MSG_SIZE then [Decode(bytes[..WIRE_MSG_SIZE])] else []
    }
  }

  function Messages(polls: seq<Poll>): seq<WireMsg> {
    if polls == [] then [] else Messages(polls[..|polls| - 1]) + polls[|polls| - 1].Message()
  }

  /** errno after a list of passes that starts with the given one. */
  function ErrnoAfter(errno: Errno, polls: seq<Poll>): Errno {
    if polls == [] then errno else polls[|polls| - 1].ErrnoAfter(ErrnoAfter(errno, polls[..|polls| - 1]))
  }

  /** Does pass k fail an assertion? */
  predicate AbortsAt(errno: Errno, polls: seq<Poll>, k: nat)
    requires k < |polls|
  {
    polls[k].Aborts(ErrnoAfter(errno, polls[..k]))
  }

  // ----- what a list of passes comes to -----

  /** A pass that reads a whole message: a datagram of at least eleven bytes. */
  ghost predicate Whole(poll: Poll) {
    poll.Datagram? && |poll.bytes| >= 11
  }

  lemma {:induction false} MessagesGrow(polls: seq<Poll>, k: nat)
    requires k <= |polls|
    ensures Messages(polls[..k]) <= Messages(polls)
    decreases |polls|
  {
    if k == |polls| {
      assert polls[..k] == polls;
    } else {
      var earlier := polls[..|polls| - 1];
      MessagesGrow(earlier, k);
      assert earlier[..k] == polls[..k];
    }
  }

  /**
   Pass k adds a message exactly if it reads a datagram of at least eleven bytes, and
   then the one its first eleven bytes decode to, at the place behind the earlier ones.
   */
  lemma MessageOf(polls: seq<Poll>, k: nat)
    requires k < |polls|
    ensures var n := |Messages(polls[..k])|;
      && n <= |Messages(polls[..k + 1])| <= |Messages(polls)|
      && |Messages(polls[..k + 1])| == (if Whole(polls[k]) then n + 1 else n)
      && (Whole(polls[k]) ==> Messages(polls)[n] == Decode(polls[k].bytes[..11]))
  {
    hide Decode;
    var upTo := polls[..k + 1];
    assert upTo[..k] == polls[..k];
    MessagesGrow(polls, k + 1);
  }

  /** A datagram as the firmware sends it is one message, and the one that was sent. */
  lemma SentIsReceived(m: WireMsg, errnoAfter: Errno)
    ensures Messages([Datagram(Encode(m), errnoAfter)]) == [m]
  {
    hide Encode, Decode;
    RoundTrip(m);
    var polls := [Datagram(Encode(m), errnoAfter)];
    assert polls[..0] == [];
    assert Encode(m)[..WIRE_MSG_SIZE] == Encode(m);
  }

  /** Does a pass leave a new value in errno, and which? */
  ghost predicate Sets(poll: Poll, error: Errno) {
    || poll == WaitFails(error)
    || poll == ReceiveFails(error)
    || (Whole(poll) && poll.errnoAfter == error)
  }

  ghost predicate Leaves(poll: Poll) {
    poll.Nothing? || (poll.Datagram? && |poll.bytes| < 11)
  }

  /** errno is what the last pass that touched it left, or the first value if none did. */
  ghost predicate LastSet(errno: Errno, polls: seq<Poll>, error: Errno) {
    || (errno == error && forall j :: 0 <= j < |polls| ==> Leaves(polls[j]))
    || (exists i :: 0 <= i < |polls| && Sets(polls[i], error) && forall j :: i < j < |polls| ==> Leaves(polls[j]))
  }

  lemma LeavingKeepsLastSet(errno: Errno, earlier: seq<Poll>, last: Poll, error: Errno)
    requires LastSet(errno, earlier, error) && Leaves(last)
    ensures LastSet(errno, earlier + [last], error)
  {
    hide Leaves, Sets;
    var polls := earlier + [last];
    assert forall j :: 0 <= j < |earlier| ==> polls[j] == earlier[j];
    if !(errno == error && forall j :: 0 <= j < |earlier| ==> Leaves(earlier[j])) {
      var i :| 0 <= i < |earlier| && Sets(earlier[i], error) && forall j :: i < j < |earlier| ==> Leaves(earlier[j]);
      assert Sets(polls[i], error);
      assert forall j :: i < j < |polls| ==> Leaves(polls[j]);
    }
  }

  lemma SettingIsLastSet(errno: Errno, earlier: seq<Poll>, last: Poll, error: Errno)
    requires Sets(last, error)
    ensures LastSet(errno, earlier + [last], error)
  {
    hide Leaves, Sets;
    assert (earlier + [last])[|earlier|] == last;
  }

  lemma {:induction false} ErrnoIsLastSet(errno: Errno, polls: seq<Poll>)
    ensures LastSet(errno, polls, ErrnoAfter(errno, polls))
  {
    if polls != [] {
      hide LastSet;
      var earlier, last := polls[..|polls| - 1], polls[|polls| - 1];
      ErrnoIsLastSet(errno, earlier);
      assert polls == earlier + [last];
      if Leaves(last) {
        LeavingKeepsLastSet(errno, earlier, last, ErrnoAfter(errno, earlier));
      } else {
        SettingIsLastSet(errno, earlier, last, ErrnoAfter(errno, polls));
      }
    }
  }

  lemma LastSetIsUnique(errno: Errno, polls: seq<Poll>, e: Errno, f: Errno)
    requires LastSet(errno, polls, e) && LastSet(errno, polls, f)
    ensures e == f
  {
  }

  /** A pass fails an assertion exactly in these three cases. */
  lemma AbortCases(errno: Errno, polls: seq<Poll>, k: nat)
    requires k < |polls|
    ensures AbortsAt(errno, polls, k) <==>
      || polls[k] == WaitFails(TryAgain) || polls[k] == WaitFails(OtherError)
      || polls[k] == ReceiveFails(Interrupted) || polls[k] == ReceiveFails(OtherError)
      || (polls[k].Datagram? && |polls[k].bytes| < 11 && !LastSet(errno, polls[..k], TryAgain))
  {
    ErrnoIsLastSet(errno, polls[..k]);
    if LastSet(errno, polls[..k], TryAgain) {
      LastSetIsUnique(errno, polls[..k], TryAgain, ErrnoAfter(errno, polls[..k]));
    }
  }

  ghost predicate FirstAbort(errno: Errno, polls: seq<Poll>, k: nat) {
    k < |polls| && AbortsAt(errno, polls, k) && forall j: nat :: j < k ==> !AbortsAt(errno, polls, j)
  }

  lemma NoPass(errno: Errno)
    ensures Messages([]) == [] && ErrnoAfter(errno, []) == errno
  {
  }

  lemma OnePass(errno: Errno, polls: seq<Poll>, k: nat)
    requires k < |polls|
    ensures Messages(polls[..k + 1]) == Messages(polls[..k]) + polls[k].Message()
    ensures ErrnoAfter(errno, polls[..k + 1]) == polls[k].ErrnoAfter(ErrnoAfter(errno, polls[..k]))
  {
    assert polls[..k + 1][..k] == polls[..k];
  }

  class Controller {
    var actuator: Actuator
    var duty: Word
    var trace: seq<Event>
    ghost var received: seq<WireMsg>

    /** Everything visible is what the messages received so far call for. */
    ghost predicate Valid()
      reads this, actuator
    {
      var good := GoodCount(received);
      && duty == Duty(good)
      && actuator.published == Commands(good + 1)
      && actuator.seqnum == ToU32(good + 2)
      && trace == Trace(received)
    }

    /** From start-up to the command for standing still. */
    constructor ()
      ensures Valid() && received == [] && fresh(actuator)
    {
      trace := [Startup];
      actuator := new Actuator();
      duty := 0;
      received := [];
      new;
      trace := trace + [Init];
      trace := trace + [SetPwm(actuator.seqnum, duty)];
      actuator.SetVel(0.0);
    }

    method Handle(msg: WireMsg)
      requires Valid()
      modifies this, actuator
      ensures Valid() && actuator == old(actuator)
      ensures received == old(received) + [msg]
    {
      hide Trace, GoodCount, Commands, Duty, Velocity, ToU32;
      OneMoreMessage(received, msg);
      ghost var good := GoodCount(received);
      OneMoreGood(good);
      received := received + [msg];
      trace := trace + [ReceivedMsg(msg)];
      if msg.magic0 != WIRE_MAGIC0 {
        trace := trace + [InvalidMsg(BAD_MAGIC0)];
      } else if msg.magic1 != WIRE_MAGIC1 {
        trace := trace + [InvalidMsg(BAD_MAGIC1)];
      } else if msg.kind != WIRE_TYPE_WHEEL_SPEED {
        trace := trace + [InvalidMsg(BAD_TYPE)];
      } else {
        duty := ClampedDuty((duty + 10) % 0x1_0000);
        var targetVelocity := (duty as real / 1000.0) * 1.0;
        trace := trace + [TargetVelocity(targetVelocity)];
        trace := trace + [SetPwm(actuator.seqnum, duty)];
        actuator.SetVel(targetVelocity);
        assert trace == old(trace) + [ReceivedMsg(msg)] + [TargetVelocity(targetVelocity), SetPwm(ToU32(good + 2), duty)];
      }
    }

    /**
     The receive loop, up to the signal or to the first pass that fails an assertion. The
     first errno is whatever start-up left behind.
     */
    method Run(polls: seq<Poll>, firstErrno: Errno) returns (aborted: bool)
      requires Valid() && received == []
      modifies this, actuator
      ensures aborted <==> exists k: nat :: k < |polls| && AbortsAt(firstErrno, polls, k)
      ensures actuator == old(actuator)
      ensures aborted ==> Valid() && exists k: nat ::
        FirstAbort(firstErrno, polls, k) && received == Messages(polls[..k])
      ensures !aborted ==>
        && received == Messages(polls)
        && duty == Duty(GoodCount(received))
        && actuator.published == Commands(GoodCount(received) + 1) + [Command(ToU32(GoodCount(received) + 2), 0.0)]
        && trace == Trace(received) + [TargetVelocity(0.0), Deinit]
    {
      hide Trace, GoodCount, Commands, Duty, Velocity, ToU32, Decode, Messages, ErrnoAfter;
      NoPass(firstErrno);
      assert polls[..0] == [];
      aborted := false;
      var errno := firstErrno;
      for k := 0 to |polls|
        invariant Valid() && actuator == old(actuator)
        invariant forall j: nat :: j < k ==> !AbortsAt(firstErrno, polls, j)
        invariant received == Messages(polls[..k])
        invariant errno == ErrnoAfter(firstErrno, polls[..k])
      {
        OnePass(firstErrno, polls, k);
        match polls[k]
        case Nothing =>
        case WaitFails(error) =>
          errno := error;
          if errno != Interrupted {
            assert FirstAbort(firstErrno, polls, k);
            return true;
          }
        case ReceiveFails(error) =>
          errno := error;
          if errno != TryAgain {
            assert FirstAbort(firstErrno, polls, k);
            return true;
          }
        case Datagram(bytes, errnoAfter) =>
          var size := polls[k].Size();
          if size != WIRE_MSG_SIZE && errno != TryAgain {
            assert FirstAbort(firstErrno, polls, k);
            return true;
          }
          if size == WIRE_MSG_SIZE {
            Handle(Decode(bytes[..WIRE_MSG_SIZE]));
            errno := errnoAfter;
          }
      }
      assert polls[..|polls|] == polls;
      assert Messages(polls[..|polls|]) == Messages(polls);
      trace := trace + [TargetVelocity(0.0)];
      actuator.SetVel(0.0);
      trace := trace + [Deinit];
    }
  }

  /** The commands of a terminated run: numbered from 1, zero first and last, never falling in between. */
  lemma CommandSequence(good: nat)
    ensures var all := Commands(good + 1) + [Command(ToU32(good + 2), 0.0)];
      && (forall k :: 0 <= k < |all| ==> all[k].seqnum == ToU32(k + 1))
      && all[0].velocity == all[|all| - 1].velocity == 0.0
      && (forall j, k :: 0 <= j <= k < |all| - 1 ==> 0.0 <= all[j].velocity <= all[k].velocity <= 1.0)
  {
    var all := Commands(good + 1) + [Command(ToU32(good + 2), 0.0)];
    forall j, k | 0 <= j <= k < |all| - 1 ensures 0.0 <= all[j].velocity <= all[k].velocity <= 1.0 {
      VelocitiesRise(j, k);
    }
  }
}
