# A verified model of the FreeRTOS / Linux / Gazebo control demo

The demo measures a wheel speed, sends it over a lossy datagram link to a Linux
process that drives an actuator, and on purpose spoils a message after every
voltage spike. This project models its two random number generators, its firmware
tasks, its sensor peripheral, its wire format and its receiver, proves each of them
against a description that does not mention its implementation, and then composes
them into one system whose tasks, network and arrivals interleave in any order.

| file | models |
|---|---|
| `Rand8.dfy` | the byte generator of the voltage task, as division by 256 modulo 315*256^7 - 1, and the in-place 16-bit code |
| `VoltageMonitor.dfy` | the bouncing voltage sweep that draws its steps from that generator |
| `ShippedSeed.dfy` | what the sweep does from the seed in the source when spikes are switched off |
| `UxRand.dfy` | the 32-bit generator of the network stack and its callers |
| `WireProtocol.dfy` | the packed eleven-byte message |
| `Comms.dfy` | the bounded request queue and the task that numbers, spoils and sends messages |
| `Receiver.dfy` | the Linux receive loop, its trace events and the actuator commands |
| `WheelSpeedSensor.dfy` | the register model of the sensor, fed by a network thread, and the polling driver |
| `TaskNames.dfy` | the table of task name symbols |
| `ControlLoop.dfy` | the composed system |
| `Machine.dfy`, `Numbers.dfy` | machine integers; powers, remainders and counting |

Code that changes state is a class whose methods are proved against functions on
values; the lemmas are about those functions. In `ControlLoop.dfy` a run is any list
of steps: a pass of the voltage task, a pass of the sensor task with arrivals before
each of its register accesses, a pass of the communication task with or without a
working socket, and the delivery of any datagram sent so far, any number of times.

Findings a reader may not expect:

- With spikes switched off the sweep of the shipped firmware freezes. The byte drawn
  at its 379th visit of the ceiling is the first one there that is zero; the value is
  then held one below the clamp with a step of zero, and neither branch that would draw
  a new step is ever reached again, even if spikes are switched on later
  (`ShippedSeed.FirstCeilingZero`, `ShippedSeed.ShippedSeedFreezes`).
  For an arbitrary seed the exact condition is `VoltageMonitor.FreezesIff`.
- The comment on the multiplier says it was chosen for six state bytes; the code has
  seven. The model follows the code and claims nothing about a maximal period.
- `uxRand` masks out bit 31 of its state, so its output repeats after 2^31 draws, half
  the period of the state (`UxRand.OutputPeriod`).
- If the trace recorder hands out no symbol for a new name, the name table ends in its
  final assertion, just as with a thirteenth name (`TaskNames.TaskNameTable.TaskNameSym`).
  The statistics task never gets near that limit: a name outside the nine with a stack
  size stops it first (`TaskNames.StatsTask.Round`).
- A datagram shorter than a message stops the receiver, unless an earlier failure left
  "try again" in errno; a longer one is cut to a message (`Receiver.Controller.Run`).

## Model

| member | source | states |
|---|---|---|
| Rand8.Generator.Rand8 | freertos/src/voltage_monitor.c:90-110 | the call on the circular array with its 16-bit variables turns the number it represents into the next one and returns that number's newest digit, across the index wrap-around |
| Rand8.Generator.constructor | freertos/src/voltage_monitor.c:92-95 | the static initial values represent the number SEED |
| Rand8.SplitMultiplication | freertos/src/voltage_monitor.c:86-105 | multiplying by 59, shifting and adding the byte back is multiplication by 315, without 16-bit overflow, and keeps the carry at most 314 |
| Rand8.StoreIsStep | freertos/src/voltage_monitor.c:99-108 | overwriting the cell at the index and advancing the index is one step of the number |
| Rand8.NumberIsFaithful | freertos/src/voltage_monitor.c:92-95 | the number determines the seven bytes in their order and the carry |
| Rand8.NumberIsOnto | freertos/src/voltage_monitor.c:92-95 | every number up to the modulus is that of seven bytes and a carry of at most 314 |
| Rand8.Ends | freertos/src/voltage_monitor.c:92-95 | the number 0 is all zero, and the modulus is all bytes 255 with carry 314 |
| Rand8.RunIdentity | freertos/src/voltage_monitor.c:99-108 | after k calls 256^k times the state is the start plus the modulus times the little-endian number of the k bytes consumed |
| Rand8.StepIsInvertible | freertos/src/voltage_monitor.c:99-108 | a call is a bijection of 0..modulus whose inverse is multiplication by 256 modulo the modulus |
| Rand8.FixedPoints | freertos/src/voltage_monitor.c:99-108 | for any contents of the array and the carry: a call leaves the number alone exactly if all is zero, or all bytes are 255 and the carry is 314 |
| Rand8.SeedNeverDegenerates | freertos/src/voltage_monitor.c:92-94 | no run from the shipped seed reaches a fixed point |
| Rand8.Recurs | freertos/src/voltage_monitor.c:90-110 | from every state the generator comes back to that state within MODULUS calls |
| Rand8.ReturnedIsConsumedLater | freertos/src/voltage_monitor.c:99-108 | the byte returned by a call is the byte consumed seven calls later |
| Rand8.AnyNineDetermine | freertos/src/voltage_monitor.c:90-110 | two runs that return the same nine bytes in a row, wherever in the runs, were in the same state before them |
| Rand8.NoNineZeros | freertos/src/voltage_monitor.c:90-110 | on no run but the all-zero one are there nine zero bytes in a row |
| Rand8.EightZerosHappen | freertos/src/voltage_monitor.c:90-110 | from some contents of the array and the carry eight zero bytes are returned in a row, so that bound is exact |
| VoltageMonitor.Task.constructor | freertos/src/voltage_monitor.c:33-34 | the task starts at the floor with the first byte drawn as its step |
| VoltageMonitor.Task.Iterate | freertos/src/voltage_monitor.c:53-80 | one pass publishes the value and the spike flag of the state before it and moves the state on by one period |
| VoltageMonitor.Task.Run | freertos/src/voltage_monitor.c:45-81 | the loop publishes, period by period, what the sweep's run gives for the switch positions |
| VoltageMonitor.PeriodMeans | freertos/src/voltage_monitor.c:62-80 | one period in numbers: the value moves by the step, held within 11000 and 13000, or 12999 with spikes off; a step is drawn exactly if the move reaches an end, and it points away from it |
| VoltageMonitor.RunIsSound | freertos/src/voltage_monitor.c:62-80 | for any use of the switch the value stays in 11000..13000, a period with spikes off leaves it below the spike level, and a frozen sweep never moves again |
| VoltageMonitor.StepsIsLeast | freertos/src/voltage_monitor.c:62-72 | the leg length used below is the least number of steps covering the distance |
| VoltageMonitor.Climb | freertos/src/voltage_monitor.c:62-67 | from any value a positive step reaches the ceiling after exactly that many periods, with no spike before, and draws there |
| VoltageMonitor.Fall | freertos/src/voltage_monitor.c:68-72 | the same downwards to the floor |
| VoltageMonitor.OnTheWayUp | freertos/src/voltage_monitor.c:53-67 | every value published on a leg up: j periods on it is j steps higher, with step and generator untouched |
| VoltageMonitor.OnTheWayDown | freertos/src/voltage_monitor.c:53-72 | the same for every value on a leg down |
| VoltageMonitor.Round | freertos/src/voltage_monitor.c:45-81 | from one visit of the ceiling to the next: the exact time, at most 4008 periods, the step drawn there, and no spike in between |
| VoltageMonitor.SpikeToSpike | freertos/src/voltage_monitor.c:45-81 | with spikes on a published spike is followed by another within 4008 periods, at an exactly stated time |
| VoltageMonitor.FirstSpike | freertos/src/voltage_monitor.c:33-34 | from the shipped seed the first spike is published in period 22 |
| VoltageMonitor.SpikesForEver | freertos/src/voltage_monitor.c:45-81 | with spikes on every 4008 consecutive periods publish a spike |
| VoltageMonitor.OffForEver | freertos/src/voltage_monitor.c:62-80 | with spikes off, for every seed: the value stays in 11000..12999, and either it stands still at 12999 from some period on or it visits the floor within every 4007 periods for ever, never both |
| VoltageMonitor.FreezesIff | freertos/src/voltage_monitor.c:63-80 | with spikes off the sweep freezes if and only if some visit of the ceiling draws a zero byte |
| VoltageMonitor.FreezeTime | freertos/src/voltage_monitor.c:63-80 | if the n-th visit of the ceiling is the first to draw a zero byte, the freeze comes exactly at the end of the rise after floor visit n, and no period earlier |
| ShippedSeed.SevenCalls | freertos/src/voltage_monitor.c:90-110 | seven calls are one multiplication by 315 of the seven bytes held, plus the carry |
| ShippedSeed.Zeros | freertos/src/voltage_monitor.c:92-94 | which of the bytes drawn first from the shipped seed are zero |
| ShippedSeed.FirstCeilingZero | freertos/src/voltage_monitor.c:63-66 | the step drawn at the 379th visit of the ceiling is zero and none drawn there before is |
| ShippedSeed.ShippedSeedFreezes | freertos/src/voltage_monitor.c:33-80 | with spikes off the sweep of the shipped firmware freezes at 12999 on the rise after floor visit 378 and in no earlier period, and stays there whatever the switch does later |
| UxRand.StepIsCut | freertos/src/ip.c:81-84 | a draw is multiplication by 0x015a4e35 and addition of 1, up to a multiple of 2^32 and within 32 bits |
| UxRand.YieldIsMiddle | freertos/src/ip.c:85 | what a draw returns are the fifteen bits between the lowest sixteen and the top one of the state |
| UxRand.ClosedForm | freertos/src/ip.c:81-84 | the state after n draws is the seed plus an odd multiple of the geometric sum of n terms, modulo 2^32 |
| UxRand.SumDivides | freertos/src/ip.c:81-84 | a power of two divides that sum exactly when it divides n |
| UxRand.FullPeriod | freertos/src/ip.c:79-86 | the states after i and j draws are equal exactly when i and j agree modulo 2^32, for every seed |
| UxRand.EveryStateIsMet | freertos/src/ip.c:79-86 | every 32-bit state is met within 2^32 draws from every seed |
| UxRand.HalfPeriodFlips | freertos/src/ip.c:84-85 | 2^30 draws later the top returned bit is inverted and the other fourteen are the same |
| UxRand.OutputPeriod | freertos/src/ip.c:79-86 | p is a period of the returned numbers if and only if 2^31 divides p |
| UxRand.Source.UxRand | freertos/src/ip.c:79-86 | the in-place draw hands out the next number of one run from the seed |
| UxRand.Source.GetNextSequenceNumber | freertos/src/ip.c:88-100 | draws from that same run and ignores the addresses |
| UxRand.Source.GetRandomNumber | freertos/src/ip.c:102-106 | writes the next number of that run and reports success |
| WireProtocol.RoundTrip | freertos/include/wire_protocol.h:21-28 | decoding the encoded message gives it back, for every content |
| WireProtocol.RoundTripBytes | linux/include/wire_protocol.h:21-28 | every eleven bytes are the encoding of what they decode to |
| WireProtocol.Layout | freertos/include/wire_protocol.h:21-28 | the eleven bytes at their places: two magic bytes, the type, and two 32-bit numbers with the low byte first |
| Comms.EightWait | freertos/src/comms.c:38-67 | with eight requests waiting one is dropped, with seven it still joins as the last |
| Comms.CommsTask.SendSensorData | freertos/src/comms.c:38-51 | a wheel speed request joins the queue exactly if fewer than eight are waiting, otherwise it is dropped and nothing changes |
| Comms.CommsTask.SendVoltageData | freertos/src/comms.c:53-67 | the same for a voltage request |
| Comms.CommsTask.Recv | freertos/src/comms.c:69-75 | takes the oldest request off the queue |
| Comms.CommsTask.Iterate | freertos/src/comms.c:110-162 | one pass takes one request and sends nothing for a voltage, and for a wheel speed the one message that the history of requests calls for; the type assertion holds |
| Comms.LocalsMean | freertos/src/comms.c:81-85 | the mutator state is the number of spikes taken modulo 3, the spike flag says whether one came since the last send, and the sequence number is the number of messages sent modulo 2^32 |
| Comms.SentIsExpected | freertos/src/comms.c:110-162 | the n-th message in full: clean unless a spike was taken since the send before it, and otherwise spoiled in the field given by the spikes counted modulo 3; nothing carries over in the reused buffer |
| Comms.OneFieldAtMost | freertos/src/comms.c:138-153 | a spoiled message has exactly one wrong header field however many spikes came, an unspoiled one none |
| Comms.ExpectedHeader | freertos/src/comms.c:130-153 | the right message field by field: which one is the complement or the next type for which spike count, the running number and the speed |
| Receiver.Controller.constructor | linux/src/main.c:73-92 | start-up traces its three events and commands velocity zero under number 1 |
| Receiver.Controller.Handle | linux/src/main.c:109-138 | one message moves the duty, the trace and the commands to what the longer list of messages calls for, which the rows below say in numbers |
| Receiver.Controller.Run | linux/src/main.c:94-150 | errno is kept through the loop, which fails exactly at the first wait error other than an interruption, receive error other than "try again", or short datagram while errno is not "try again"; otherwise it ends with duty, trace and commands as the received messages call for, followed by the final stop; the rows below say which messages and which failures those are |
| Receiver.VerdictIs | linux/src/main.c:118-130 | reason 0 exactly for a wrong first magic byte, 1 for only then a wrong second, 2 for only then a wrong type, and otherwise good, with the bytes in numbers |
| Receiver.DutyIs | linux/src/main.c:133-134 | the duty after n good messages is ten times n, at most 1000, and the velocity a thousandth of it |
| Receiver.RunBegins | linux/src/main.c:73-92 | every run's trace begins with start-up, initialisation and a duty of zero under number 1 |
| Receiver.TraceShowsMessages | linux/src/main.c:109-116 | the receptions in the trace are the messages handled, each once, in order |
| Receiver.AnswerOf | linux/src/main.c:109-135 | behind each reception stands the rejection with the reason its fields call for, or, exactly for a good message, a target velocity |
| Receiver.MessageOf | linux/src/main.c:102-107 | over any passes: one message for each datagram of at least eleven bytes, in order, which is what its first eleven bytes decode to, and no other |
| Receiver.SentIsReceived | linux/src/main.c:102-107 | a datagram as the firmware sends it is received as the one message it encodes |
| Receiver.ErrnoIsLastSet | linux/src/main.c:99-107 | errno is what the last pass that touched it left, a short datagram touching nothing, or the first value |
| Receiver.AbortCases | linux/src/main.c:99-105 | a pass fails exactly by a wait error other than an interruption, a receive error other than "try again", or a datagram below eleven bytes while the last errno set is not "try again" |
| Receiver.Actuator.SetVel | linux/actuator/actuator.cpp:74-94 | publishes under the current number and advances it |
| Receiver.CommandSequence | linux/src/main.c:90-144 | the commands of a terminated run are numbered 1, 2, 3, ...; the first and the last are zero and those before the last never fall and never exceed 1 |
| Receiver.VelocitiesRise | linux/src/main.c:133-134 | velocities lie in 0..1, never fall, and reach 1 exactly from the hundredth good message on |
| Receiver.EveryMessageIsAnswered | specs/system.speqtr:18-45 | between two received messages, and after the last, there is one rejection, or a target velocity and then a duty that equals it |
| Receiver.PwmMatchesCommand | linux/src/main.c:133-137 | the two events of a good message carry the number, duty and velocity of the command sent for it |
| WheelSpeedSensor.SpeedReadsBack | freertos/sensor_models/wss.py:17-19 | the register read as a signed number is 50000 from 50 rad/s on, -50000 from -50 down, and in between the speed in thousandths cut off towards zero |
| WheelSpeedSensor.ReadsIsUnique | freertos/sensor_models/wss.py:17-19 | that meaning leaves exactly one register value for a speed |
| WheelSpeedSensor.TimeReadsBack | freertos/sensor_models/wss.py:21-23 | the time register counts whole milliseconds and wraps at 2^32 of them |
| WheelSpeedSensor.SpeedIsMonotone | freertos/sensor_models/wss.py:17-19 | a higher speed never reads lower |
| WheelSpeedSensor.Peripheral.OnMessage | freertos/sensor_models/wss.py:76-83 | a measurement is queued exactly if fewer than 32 wait |
| WheelSpeedSensor.Peripheral.Read | freertos/sensor_models/wss.py:103-117 | the value of each register and the state after it are those of the abstract device, of which RegisterValues and StatusReads say what they are |
| WheelSpeedSensor.Peripheral.Write | freertos/sensor_models/wss.py:118-141 | the three control bits act on the abstract device in source order, as WriteCases says in numbers |
| WheelSpeedSensor.ThirtyTwoWait | freertos/sensor_models/wss.py:76-83 | with thirty-two measurements waiting one is dropped, with thirty-one it still joins as the last |
| WheelSpeedSensor.FittingIs | freertos/sensor_models/wss.py:76-83 | of a list of arrivals the first ones are accepted until thirty-two wait |
| WheelSpeedSensor.RegisterValues | freertos/sensor_models/wss.py:103-117 | what is read at offsets 0, 4, 8, 12, 16 and elsewhere: zero, the status, milliseconds, number, speed in thousandths, the value passed in; only offset 4 changes anything |
| WheelSpeedSensor.StatusReads | freertos/sensor_models/wss.py:106-108 | after a request the status reads 1 for a measurement plus 2 for a bump now or earlier, and a second read lacks the 1 |
| WheelSpeedSensor.WriteCases | freertos/sensor_models/wss.py:118-141 | a control write bit by bit in numbers: what it does to the valid bit, the bump bit, the queue, the latched values and the server count; a write elsewhere does nothing |
| WheelSpeedSensor.ControlWrites | freertos/src/wss.c:40 | since control reads 0, a read-modify-write writes only the driver's own bits: a poll requests and does nothing else, start-up starts one server |
| WheelSpeedSensor.ReadOutIsStable | freertos/src/wss.c:73-87 | arrivals between the register reads change no value that is read |
| WheelSpeedSensor.PollReports | freertos/src/wss.c:71-87 | a poll reports time, number and speed of the one measurement that was oldest when it made its request, in milliseconds and thousandths, and nothing when none was waiting; what arrives meanwhile is queued behind the rest as far as it fits |
| WheelSpeedSensor.ReportDescribes | freertos/src/wss.c:76-86 | the report of a measurement carries its time in milliseconds and its number, each modulo 2^32, and its speed in thousandths |
| WheelSpeedSensor.PollByPoll | freertos/src/wss.c:63-88 | a run one poll longer has exactly that poll's report more |
| WheelSpeedSensor.WholeRun | freertos/src/wss.c:36-88 | over any polls and arrivals the reports are those of a prefix of the accepted measurements in order, each once, the rest is queued, at most 32, and exactly one server was started |
| WheelSpeedSensor.BumpOnceAlways | freertos/sensor_models/wss.py:129-132 | a bump is reported from the first polled measurement with one on, and never before |
| WheelSpeedSensor.Driver.Poll | freertos/src/wss.c:71-87 | the sequence of register accesses with arrivals before each one is the poll described above, and keeps the driver's invariant |
| WheelSpeedSensor.Driver.Init | freertos/src/wss.c:36-40 | the start-up access to the control register; from reset it establishes the driver's invariant, with one server started |
| WheelSpeedSensor.Driver.Run | freertos/src/wss.c:63-88 | the loop keeps that invariant: all reports so far are those of the measurements polled, in order, each once, and no server is started again |
| TaskNames.SameNameIsSameCharacters | freertos/src/stats.c:107 | names compare equal exactly if they agree at each of the first sixteen places up to and including the first NUL |
| TaskNames.SameNameIsSameKey | freertos/src/stats.c:107 | names compare equal over sixteen characters exactly when their first sixteen characters up to a NUL are the same |
| TaskNames.KeyIsPrefix | freertos/src/stats.c:107 | the key of a name is its first sixteen characters |
| TaskNames.IdealIsFirstAnswer | freertos/src/stats.c:98-133 | the ideal table knows exactly the keys looked up, each with the symbol registered by the first look-up |
| TaskNames.SymbolsAreKept | freertos/src/stats.c:98-133 | later look-ups never change the symbol of a key |
| TaskNames.SymbolsTellKeysApart | freertos/src/stats.c:122-124 | if the recorder repeats no symbol among the calls that really ask it, different keys have different symbols |
| TaskNames.TaskNameTable.TaskNameSym | freertos/src/stats.c:98-133 | the two scans over the twelve slots return what the ideal table holds, register a new key in the first free slot only, change nothing for a known one, and fail exactly when a new key finds no slot or gets no symbol |
| TaskNames.LogAll | freertos/src/stats.c:98-133 | look-ups only, on any table: a list of them fails if and only if more than twelve different keys have been looked up since the start |
| TaskNames.TaskStackSize | freertos/src/stats.c:135-178 | fails exactly for a name whose key is not one of nine, otherwise gives that task's size |
| TaskNames.StatsTask.Round | freertos/src/stats.c:50-96 | a round fails if and only if the kernel counts more than twelve tasks, or run time has been counted and a task's name is not one of the nine; otherwise every task is logged with its symbol and size; the name table never makes it fail and never holds more than nine keys |
| ControlLoop.Invariant | freertos/src/comms.c:38-75 | what every step of the composed system keeps: queue bound and order, the task's locals, the sweep, the sensor, and where every datagram and every received message came from |
| ControlLoop.TransmitStep | freertos/src/comms.c:110-162 | on every run a pass with a request waiting takes the oldest; a wheel speed hands the right message to the socket, which if it takes it puts exactly that message on the air, once; nothing else changes |
| ControlLoop.DeliverStep | linux/src/main.c:102-116 | delivering a datagram that was sent adds what it decodes to and its origin, and changes nothing else |
| ControlLoop.VoltageStep | freertos/src/voltage_monitor.c:53-60 | a pass of the voltage task posts its value, accepted exactly with fewer than eight waiting |
| ControlLoop.VoltagePosted | freertos/src/voltage_monitor.c:60 | the request carries the value itself, flagged exactly from 13000 on |
| ControlLoop.SensorStep | freertos/src/wss.c:71-87 | a pass of the sensor task posts the speed it reports, if any, in the same way |
| ControlLoop.SourcesRun | freertos/src/wss.c:63-88 | however the tasks interleave, the sweep has run exactly the voltage passes and the driver exactly the polls among the steps, and each published voltage and reported speed is requested once, in order |
| ControlLoop.SentOnce | freertos/src/comms.c:157 | no message is put on the air twice: the origins of the datagrams strictly increase |
| ControlLoop.RequestsAreAccountedFor | freertos/src/comms.c:38-75 | every request was dropped, is queued, was a voltage taken, or was a speed sent; the speeds sent are a prefix of those accepted; at most eight are queued |
| ControlLoop.AttemptsAreExpected | freertos/src/comms.c:130-157 | the n-th send carries number n modulo 2^32, the n-th accepted speed, and the header its spikes call for |
| ControlLoop.EndToEnd | linux/src/main.c:118-138 | for any interleaving, drops, loss, repetition and reordering: a received message is rejected exactly if a spike was taken since the send before it, the trace shows behind its reception the number of spikes taken before it modulo 3 as reason, and it keeps its number and speed |
| ControlLoop.DutyEndToEnd | linux/src/main.c:133 | on every run the duty is ten times the number of received messages that were sent with no spike pending, at most 1000 |
| ControlLoop.SpikesOffEndToEnd | freertos/src/voltage_monitor.c:74-80 | with spikes off no message is ever spoiled or rejected and the duty is ten times the number received, at most 1000 |
| ControlLoop.SpikeRequestsKeepComing | freertos/src/voltage_monitor.c:53-60 | with spikes on any 4008 voltage requests in a row contain a spike, however the tasks interleave |
| ControlLoop.SpikeSpoilsNext | freertos/src/comms.c:114-153 | once a spike is taken off the queue the next message handed to the socket has one wrong field |
| ControlLoop.VoltageStandsStill | freertos/src/voltage_monitor.c:62-80 | with spikes off the voltage posted is 12999 from some request on, in every run of the whole system |
| ControlLoop.SpeedsAreMeasured | freertos/src/wss.c:76-86 | the speed in every received message is that of one polled measurement in thousandths, held within 50 rad/s and cut off towards zero, and messages sent later carry measurements polled later |

## Left out

- Task timing, priorities and deadlines: scheduling is arbitrary interleaving of whole passes; within a poll the arrivals are placed before each register access.
- Other tasks' steps between two register accesses of one poll: they touch neither the peripheral nor the driver's locals, so a pass of the driver is one step of the composed system.
- The FreeRTOS kernel, the TCP/IP stack, the trace recorder and the HAL: a queue is a bounded list, a send may fail, registration hands out a given symbol.
- The comms task's wait for the network and its socket creation: requests simply pile up and are dropped until its first step.
- Start-up draws of the network stack, which print four numbers from `uxRand`: they are ordinary draws.
- JSON, sockets and threads in the sensor model: a measurement arrives complete, with an integer time and an integer bump flag.
- Floating point: speeds and velocities are real numbers, so the rounding of 1000.0 times a speed and of duty over 1000.0 is not modelled.
- The console log lines and the firmware's own trace channels, except the sensor driver's report and the published voltage.
- The other firmware sources, the Gazebo plugin and world, the robot tests and the scripts: plumbing without a hard property.
- The generator's period: the source gives no ground for a maximal one, and only that every state recurs is proved.
- Names whose storage changes after registration: a slot keeps the text, not the pointer.
- The number of periods until the shipped sweep freezes: the floor visit and the rise are exact (ShippedSeed.ShippedSeedFreezes), the period of that visit is bounded by the longest possible bounces.
- The fields the statistics task logs besides symbol and stack size, and the order in which C evaluates the two look-ups of one entry: both are made and both must succeed.
