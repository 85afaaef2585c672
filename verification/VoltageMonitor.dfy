/**
 The voltage sweep (freertos/src/voltage_monitor.c): a value that bounces between
 MV_MIN and MV_MAX in steps drawn from the byte generator, published once a
 period. Reaching MV_SPIKE is a spike; with spikes switched off the value is
 pulled back to one below it.
 */
module VoltageMonitor {
  import opened Machine
  import opened Numbers
  import opened Rand8

  const MV_MAX := 13000
  const MV_MIN := 11000
  const MV_SPIKE := 13000

  /** The loop's variables; the generator is represented by its number. */
  datatype Sweep = Sweep(millivolts: int, delta: int, gen: nat) {
    predicate Spike() {
      millivolts >= MV_SPIKE
    }

    /** Stopped below the spike level with a step of zero. */
    predicate Frozen() {
      millivolts == MV_SPIKE - 1 && delta == 0
    }

    /** At the top with the step that was drawn there: a spike, or a suppressed one. */
    predicate AtCeiling() {
      MV_SPIKE - 1 <= millivolts <= MV_MAX && delta == -(Newest(gen) as int)
    }

    /** Standing at the floor with the step that was drawn there. */
    predicate AtFloor() {
      millivolts == MV_MIN && delta == Newest(gen)
    }
  }

  const START := Sweep(MV_MIN, Newest(Next(SEED)), Next(SEED))

  /** One period after publishing: move, turn round at an end, suppress a spike if asked to. */
  function Period(s: Sweep, spikesOn: bool): Sweep {
    var moved := s.millivolts + s.delta;
    var turned :=
      if moved >= MV_MAX then Sweep(MV_MAX, -(Newest(Next(s.gen)) as int), Next(s.gen))
      else if moved <= MV_MIN then Sweep(MV_MIN, Newest(Next(s.gen)), Next(s.gen))
      else s.(millivolts := moved);
    if !spikesOn && turned.Spike() then turned.(millivolts := MV_SPIKE - 1) else turned
  }

  /** The state after k periods; the switch is read afresh in every period. */
  function After(s: Sweep, spikesOn: nat -> bool, k: nat): Sweep {
    if k == 0 then s else Period(After(s, spikesOn, k - 1), spikesOn(k - 1))
  }

  /** The switch from period k on. */
  function Later(spikesOn: nat -> bool, k: nat): nat -> bool {
    (j: nat) => spikesOn(k + j)
  }

  lemma {:induction false} AfterAdd(s: Sweep, spikesOn: nat -> bool, j: nat, k: nat)
    ensures After(s, spikesOn, j + k) == After(After(s, spikesOn, j), Later(spikesOn, j), k)
  {
    hide Period;
    if k > 0 {
      AfterAdd(s, spikesOn, j, k - 1);
      assert After(s, spikesOn, j + k) == Period(After(s, spikesOn, j + (k - 1)), spikesOn(j + (k - 1)));
      assert Later(spikesOn, j)(k - 1) == spikesOn(j + (k - 1));
    }
  }

  // ----- what every period keeps -----

  ghost predicate Sound(s: Sweep) {
    && 0 < s.gen < MODULUS
    && MV_MIN <= s.millivolts <= MV_MAX
    && -255 <= s.delta <= 255
    && (s.millivolts == MV_MIN ==> s.delta == Newest(s.gen))
    && (s.millivolts == MV_MAX ==> s.delta == -(Newest(s.gen) as int))
    && (s.delta == 0 ==> s.millivolts == MV_MIN || s.millivolts >= MV_SPIKE - 1)
  }

  /**
   A period in one clause each: the value moves by the step and is held within 11000 and
   13000, or 12999 with spikes off; a step is drawn exactly if the move reaches an end,
   and it points away from that end.
   */
  lemma PeriodMeans(s: Sweep, spikesOn: bool)
    ensures var moved, next := s.millivolts + s.delta, Period(s, spikesOn);
      && (11000 <= moved <= 12999 ==> next.millivolts == moved)
      && (moved < 11000 ==> next.millivolts == 11000)
      && (moved >= 13000 ==> next.millivolts == if spikesOn then 13000 else 12999)
      && (11000 < moved < 13000 ==> next.delta == s.delta && next.gen == s.gen)
      && (moved <= 11000 ==> next.delta == Newest(next.gen) && next.gen == Next(s.gen))
      && (moved >= 13000 ==> next.delta == 0 - (Newest(next.gen) as int) && next.gen == Next(s.gen))
  {
    hide Next, Newest;
  }

  lemma PeriodIsSound(s: Sweep, spikesOn: bool)
    requires Sound(s)
    ensures Sound(Period(s, spikesOn))
    ensures !spikesOn ==> !Period(s, spikesOn).Spike()
    ensures s.Frozen() ==> Period(s, spikesOn) == s
  {
    StepStays(s.gen);
  }

  /** Whatever the switch does: the value stays in range, and a frozen sweep never moves again. */
  lemma {:induction false} RunIsSound(s: Sweep, spikesOn: nat -> bool, k: nat)
    requires Sound(s)
    ensures Sound(After(s, spikesOn, k))
    ensures s.Frozen() ==> After(s, spikesOn, k) == s
    ensures k > 0 && !spikesOn(k - 1) ==> !After(s, spikesOn, k).Spike()
  {
    if k > 0 {
      RunIsSound(s, spikesOn, k - 1);
      PeriodIsSound(After(s, spikesOn, k - 1), spikesOn(k - 1));
    }
  }

  lemma StartIsSound()
    ensures Sound(START) && START.AtFloor() && START.delta == 95
  {
    hide Next, Newest;
    FirstDraw();
  }

  // ----- the straight legs -----

  /** How many steps of size r it takes to cover a distance. */
  function Steps(distance: nat, r: nat): (k: nat)
    requires r > 0
    ensures distance > 0 ==> 0 < k <= distance
  {
    if distance <= r then (if distance == 0 then 0 else 1) else 1 + Steps(distance - r, r)
  }

  /** It is the least number that does. */
  lemma {:induction false} StepsIsLeast(distance: nat, r: nat, j: nat)
    requires r > 0
    ensures j < Steps(distance, r) <==> j * r < distance
  {
    if distance > r && j > 0 {
      StepsIsLeast(distance - r, r, j - 1);
      assert j * r == (j - 1) * r + r;
    } else if j > 0 {
      AtLeastOnce(r, j);
    }
  }

  lemma OnePeriod(s: Sweep, spikesOn: nat -> bool, k: nat)
    requires k > 0
    ensures After(s, spikesOn, k) == After(Period(s, spikesOn(0)), Later(spikesOn, 1), k - 1)
  {
    hide Period;
    AfterAdd(s, spikesOn, 1, k - 1);
    assert After(s, spikesOn, 1) == Period(After(s, spikesOn, 0), spikesOn(0));
  }

  ghost predicate NoSpikeBetween(s: Sweep, spikesOn: nat -> bool, from: nat, to: nat) {
    forall j: nat :: from <= j < to ==> !After(s, spikesOn, j).Spike()
  }

  /** A quiet first period in front of a quiet stretch. */
  lemma OneMoreQuiet(s: Sweep, spikesOn: nat -> bool, to: nat)
    requires NoSpikeBetween(Period(s, spikesOn(0)), Later(spikesOn, 1), 0, to)
    ensures NoSpikeBetween(s, spikesOn, 1, to + 1)
  {
    hide Period;
    forall j: nat | 1 <= j < to + 1 ensures !After(s, spikesOn, j).Spike() {
      OnePeriod(s, spikesOn, j);
    }
  }

  lemma {:induction false} Climb(s: Sweep, spikesOn: nat -> bool)
    requires MV_MIN <= s.millivolts < MV_MAX && s.delta > 0
    ensures var k := Steps(MV_MAX - s.millivolts, s.delta);
      && After(s, spikesOn, k) == Sweep(Top(spikesOn(k - 1)), -(Newest(Next(s.gen)) as int), Next(s.gen))
      && NoSpikeBetween(s, spikesOn, 0, k)
    decreases MV_MAX - s.millivolts
  {
    hide Next, Newest, NoSpikeBetween;
    var k := Steps(MV_MAX - s.millivolts, s.delta);
    var next, later := Period(s, spikesOn(0)), Later(spikesOn, 1);
    OnePeriod(s, spikesOn, k);
    QuietHere(s, spikesOn);
    if k > 1 {
      Climb(next, later);
      OneMoreQuiet(s, spikesOn, k - 1);
      QuietThenMore(s, spikesOn, k);
    }
  }

  /** On a leg up every period publishes the value one step higher, with no draw. */
  lemma {:induction false} OnTheWayUp(s: Sweep, spikesOn: nat -> bool, j: nat)
    requires MV_MIN <= s.millivolts < MV_MAX && s.delta > 0
    requires j < Steps(MV_MAX - s.millivolts, s.delta)
    ensures After(s, spikesOn, j) == Sweep(s.millivolts + j * s.delta, s.delta, s.gen)
    decreases j
  {
    hide Next, Newest;
    if j > 0 {
      OnTheWayUp(Period(s, spikesOn(0)), Later(spikesOn, 1), j - 1);
      OnePeriod(s, spikesOn, j);
      assert s.delta + (j - 1) * s.delta == j * s.delta;
    }
  }

  /** And on a leg down the value one step lower. */
  lemma {:induction false} OnTheWayDown(s: Sweep, spikesOn: nat -> bool, j: nat)
    requires MV_MIN < s.millivolts <= MV_MAX && s.delta < 0
    requires j < Steps(s.millivolts - MV_MIN, -s.delta)
    ensures After(s, spikesOn, j) == Sweep(s.millivolts + j * s.delta, s.delta, s.gen)
    decreases j
  {
    hide Next, Newest;
    if j > 0 {
      OnTheWayDown(Period(s, spikesOn(0)), Later(spikesOn, 1), j - 1);
      OnePeriod(s, spikesOn, j);
      assert s.delta + (j - 1) * s.delta == j * s.delta;
    }
  }

  /** The step is still the positive one in the period before the ceiling is reached. */
  lemma {:induction false} StillClimbing(s: Sweep, spikesOn: nat -> bool)
    requires MV_MIN <= s.millivolts < MV_MAX && s.delta > 0
    ensures After(s, spikesOn, Steps(MV_MAX - s.millivolts, s.delta) - 1).delta > 0
    decreases MV_MAX - s.millivolts
  {
    hide Next, Newest;
    var k := Steps(MV_MAX - s.millivolts, s.delta);
    if k > 1 {
      StillClimbing(Period(s, spikesOn(0)), Later(spikesOn, 1));
      OnePeriod(s, spikesOn, k - 1);
    }
  }

  lemma QuietHere(s: Sweep, spikesOn: nat -> bool)
    requires !s.Spike()
    ensures NoSpikeBetween(s, spikesOn, 0, 1)
  {
  }

  lemma QuietThenMore(s: Sweep, spikesOn: nat -> bool, to: nat)
    requires !s.Spike() && NoSpikeBetween(s, spikesOn, 1, to)
    ensures NoSpikeBetween(s, spikesOn, 0, to)
  {
  }

  lemma {:induction false} Fall(s: Sweep, spikesOn: nat -> bool)
    requires MV_MIN < s.millivolts <= MV_MAX && s.delta < 0
    ensures var k := Steps(s.millivolts - MV_MIN, -s.delta);
      && After(s, spikesOn, k) == Sweep(MV_MIN, Newest(Next(s.gen)), Next(s.gen))
      && NoSpikeBetween(s, spikesOn, 1, k)
    decreases s.millivolts - MV_MIN
  {
    hide Next, Newest;
    var k := Steps(s.millivolts - MV_MIN, -s.delta);
    var next, later := Period(s, spikesOn(0)), Later(spikesOn, 1);
    OnePeriod(s, spikesOn, k);
    if k > 1 {
      Fall(next, later);
      assert NoSpikeBetween(next, later, 0, k - 1);
      OneMoreQuiet(s, spikesOn, k - 1);
    }
  }

  /** Where the sweep stands after hitting the ceiling. */
  function Top(spikeOn: bool): int {
    if spikeOn then MV_SPIKE else MV_SPIKE - 1
  }

  // ----- waiting at the floor for a step that is not zero -----

  lemma NonZeroComes(gen: nat) returns (z: nat)
    requires 0 < gen < MODULUS
    ensures z <= 8 && Newest(Nth(gen, z)) != 0
    ensures forall j: nat :: j < z ==> Newest(Nth(gen, j)) == 0
  {
    hide Next, Newest;
    var past := EveryStateHasAPast(gen, 1);
    RunStays(past, 1);
    NoNineZeros(past, 0);
    var first :| 0 <= first < 9 && Returned(past, first) != 0;
    NthAdd(past, 1, first);
    z := 0;
    while Newest(Nth(gen, z)) == 0
      invariant z <= first
      invariant forall j: nat :: j < z ==> Newest(Nth(gen, j)) == 0
      decreases first - z
    {
      z := z + 1;
    }
  }

  /** The number of zero steps drawn before the first usable one. */
  ghost function ZeroDraws(gen: nat): (z: nat)
    requires 0 < gen < MODULUS
    ensures z <= 8 && Newest(Nth(gen, z)) != 0
    ensures forall j: nat :: j < z ==> Newest(Nth(gen, j)) == 0
  {
    assert exists z: nat :: z <= 8 && Newest(Nth(gen, z)) != 0 && forall j: nat :: j < z ==> Newest(Nth(gen, j)) == 0 by {
      var z := NonZeroComes(gen);
    }
    var z: nat :| z <= 8 && Newest(Nth(gen, z)) != 0 && forall j: nat :: j < z ==> Newest(Nth(gen, j)) == 0;
    z
  }

  lemma {:induction false} WaitAtFloor(s: Sweep, spikesOn: nat -> bool, k: nat)
    requires s.AtFloor()
    requires forall j: nat :: j < k ==> Newest(Nth(s.gen, j)) == 0
    ensures After(s, spikesOn, k) == Sweep(MV_MIN, Newest(Nth(s.gen, k)), Nth(s.gen, k))
  {
    if k > 0 {
      WaitAtFloor(s, spikesOn, k - 1);
    }
  }

  // ----- from one turning point to the next -----

  /** Periods from the floor to the ceiling. */
  ghost function RiseTime(gen: nat): nat
    requires 0 < gen < MODULUS
  {
    var z := ZeroDraws(gen);
    z + Steps(MV_MAX - MV_MIN, Newest(Nth(gen, z)))
  }

  /** The generator when the ceiling is reached. */
  ghost function RiseGen(gen: nat): nat
    requires 0 < gen < MODULUS
  {
    Nth(gen, ZeroDraws(gen) + 1)
  }

  lemma QuietLater(s: Sweep, spikesOn: nat -> bool, mid: nat, to: nat, j: nat)
    requires mid <= j < to
    requires NoSpikeBetween(After(s, spikesOn, mid), Later(spikesOn, mid), 0, to - mid)
    ensures !After(s, spikesOn, j).Spike()
  {
    hide After, Sweep.Spike, Later;
    AfterAdd(s, spikesOn, mid, j - mid);
  }

  lemma {:induction false} QuietThenQuiet(s: Sweep, spikesOn: nat -> bool, from: nat, mid: nat, to: nat)
    requires from <= mid <= to
    requires NoSpikeBetween(s, spikesOn, from, mid)
    requires NoSpikeBetween(After(s, spikesOn, mid), Later(spikesOn, mid), 0, to - mid)
    ensures NoSpikeBetween(s, spikesOn, from, to)
  {
    hide After, Sweep.Spike, Later;
    forall j: nat | mid <= j < to ensures !After(s, spikesOn, j).Spike() {
      QuietLater(s, spikesOn, mid, to, j);
    }
  }

  lemma QuietAtFloor(s: Sweep, spikesOn: nat -> bool, z: nat)
    requires s.AtFloor()
    requires forall j: nat :: j < z ==> Newest(Nth(s.gen, j)) == 0
    ensures NoSpikeBetween(s, spikesOn, 0, z)
  {
    hide Next, Newest, Period;
    forall j: nat | j < z ensures !After(s, spikesOn, j).Spike() {
      WaitAtFloor(s, spikesOn, j);
    }
  }

  lemma Rise(s: Sweep, spikesOn: nat -> bool)
    requires s.AtFloor() && 0 < s.gen < MODULUS
    ensures var t := RiseTime(s.gen);
      && 0 < t <= 2008
      && After(s, spikesOn, t) == Sweep(Top(spikesOn(t - 1)), -(Newest(RiseGen(s.gen)) as int), RiseGen(s.gen))
      && After(s, spikesOn, t - 1).delta > 0
      && NoSpikeBetween(s, spikesOn, 0, t)
  {
    hide Next, Newest, Period, NoSpikeBetween, Steps, After;
    var z, t := ZeroDraws(s.gen), RiseTime(s.gen);
    WaitAtFloor(s, spikesOn, z);
    Climb(After(s, spikesOn, z), Later(spikesOn, z));
    StillClimbing(After(s, spikesOn, z), Later(spikesOn, z));
    AfterAdd(s, spikesOn, z, t - z);
    AfterAdd(s, spikesOn, z, t - 1 - z);
    QuietAtFloor(s, spikesOn, z);
    QuietThenQuiet(s, spikesOn, 0, z, t);
  }

  /** Periods from one visit of the ceiling to the next. */
  ghost function RoundTime(s: Sweep): nat
    requires Sound(s)
  {
    if s.delta >= 0 then 1 else
      StepStays(s.gen);
      Steps(s.millivolts - MV_MIN, -s.delta) + RiseTime(Next(s.gen))
  }

  ghost function RoundGen(s: Sweep): nat
    requires Sound(s)
  {
    if s.delta >= 0 then Next(s.gen) else
      StepStays(s.gen);
      RiseGen(Next(s.gen))
  }

  lemma StuckAtTop(s: Sweep, spikesOn: nat -> bool)
    requires s.millivolts == MV_MAX && s.delta == 0
    ensures After(s, spikesOn, 1) == Sweep(Top(spikesOn(0)), -(Newest(Next(s.gen)) as int), Next(s.gen))
    ensures NoSpikeBetween(s, spikesOn, 1, 1)
  {
    hide Next, Newest;
    assert After(s, spikesOn, 1) == Period(After(s, spikesOn, 0), spikesOn(0));
  }

  /**
   From one visit of the ceiling to the next: when exactly it comes, with which
   step, that nothing spikes on the way, and that it takes at most 4008 periods.
   Only the switch in the very last of them matters.
   */
  lemma {:induction false} Round(s: Sweep, spikesOn: nat -> bool)
    requires Sound(s) && s.AtCeiling() && !s.Frozen()
    ensures var t, g := RoundTime(s), RoundGen(s);
      && 0 < t <= 4008
      && After(s, spikesOn, t) == Sweep(Top(spikesOn(t - 1)), -(Newest(g) as int), g)
      && NoSpikeBetween(s, spikesOn, 1, t)
  {
    hide Next, Newest, Period, NoSpikeBetween, Steps, After;
    if s.delta < 0 {
      var down := Steps(s.millivolts - MV_MIN, -s.delta);
      Fall(s, spikesOn);
      StepStays(s.gen);
      var floor, later := After(s, spikesOn, down), Later(spikesOn, down);
      Rise(floor, later);
      AfterAdd(s, spikesOn, down, RiseTime(floor.gen));
      QuietThenQuiet(s, spikesOn, 1, down, RoundTime(s));
    } else {
      StuckAtTop(s, spikesOn);
    }
  }

  /** With spikes on, a published spike is followed by the next one after exactly RoundTime periods. */
  lemma {:induction false} SpikeToSpike(s: Sweep, spikesOn: nat -> bool)
    requires Sound(s) && s.Spike()
    requires forall j: nat :: spikesOn(j)
    ensures 0 < RoundTime(s) <= 4008
    ensures After(s, spikesOn, RoundTime(s)).Spike() && NoSpikeBetween(s, spikesOn, 1, RoundTime(s))
  {
    hide Next, Newest, Period;
    Round(s, spikesOn);
  }

  // ----- whole runs -----

  /** From the shipped seed the first spike is published in period 22, counting from 0. */
  lemma FirstSpike(spikesOn: nat -> bool)
    requires spikesOn(21)
    ensures After(START, spikesOn, 22).Spike() && After(START, spikesOn, 22).AtCeiling()
    ensures NoSpikeBetween(START, spikesOn, 0, 22)
  {
    hide Next, Newest;
    StartIsSound();
    Climb(START, spikesOn);
    StepsIsLeast(MV_MAX - MV_MIN, 95, 21);
    StepsIsLeast(MV_MAX - MV_MIN, 95, 22);
  }

  /** With spikes on, every stretch of 4008 periods publishes one. */
  lemma {:induction false} SpikesForEver(spikesOn: nat -> bool, k: nat)
    requires forall j: nat :: spikesOn(j)
    ensures exists j: nat :: k <= j < k + 4008 && After(START, spikesOn, j).Spike()
  {
    var j := NextSpike(spikesOn, k);
  }

  lemma {:induction false} NextSpike(spikesOn: nat -> bool, k: nat) returns (j: nat)
    requires forall j: nat :: spikesOn(j)
    ensures k <= j < k + 4008
    ensures After(START, spikesOn, j).Spike() && After(START, spikesOn, j).AtCeiling()
    decreases k
  {
    hide Next, Newest, Period;
    if k == 0 {
      FirstSpike(spikesOn);
      j := 22;
    } else {
      j := NextSpike(spikesOn, k - 1);
      if j == k - 1 {
        StartIsSound();
        RunIsSound(START, spikesOn, j);
        var s, later := After(START, spikesOn, j), Later(spikesOn, j);
        Round(s, later);
        AfterAdd(START, spikesOn, j, RoundTime(s));
        j := j + RoundTime(s);
      }
    }
  }

  // ----- spikes switched off -----

  ghost predicate Off(spikesOn: nat -> bool) {
    forall j: nat :: !spikesOn(j)
  }

  /** The generator at the n-th visit of the floor, counting from the one given. */
  ghost function FloorGen(gen: nat, n: nat): (g: nat)
    requires 0 < gen < MODULUS
    ensures 0 < g < MODULUS
  {
    if n == 0 then gen else
      var was := FloorGen(gen, n - 1);
      RunStays(was, ZeroDraws(was) + 1);
      StepStays(RiseGen(was));
      Next(RiseGen(was))
  }

  /** The step drawn at the ceiling after the n-th visit of the floor. */
  ghost function CeilingDraw(gen: nat, n: nat): Byte
    requires 0 < gen < MODULUS
  {
    Newest(RiseGen(FloorGen(gen, n)))
  }

  /** One bounce: a zero step at the ceiling freezes the sweep, any other one brings it back down. */
  lemma {:induction false} Bounce(s: Sweep, spikesOn: nat -> bool) returns (t: nat)
    requires s.AtFloor() && 0 < s.gen < MODULUS && Off(spikesOn)
    ensures 0 < t <= 4007
    ensures if CeilingDraw(s.gen, 0) == 0 then After(s, spikesOn, t).Frozen()
      else After(s, spikesOn, t).AtFloor() && After(s, spikesOn, t).gen == FloorGen(s.gen, 1)
  {
    hide Next, Newest, Period;
    var up := RiseTime(s.gen);
    Rise(s, spikesOn);
    var top, later := After(s, spikesOn, up), Later(spikesOn, up);
    assert FloorGen(s.gen, 0) == s.gen;
    if CeilingDraw(s.gen, 0) == 0 {
      t := up;
    } else {
      var down := Steps(top.millivolts - MV_MIN, -top.delta);
      Fall(top, later);
      AfterAdd(s, spikesOn, up, down);
      t := up + down;
    }
  }

  /** As long as no zero is drawn at the ceiling, floor visits go on, at most 4007 periods apart. */
  lemma {:induction false} FloorVisit(s: Sweep, spikesOn: nat -> bool, n: nat) returns (t: nat)
    requires s.AtFloor() && 0 < s.gen < MODULUS && Off(spikesOn)
    requires forall i: nat :: i < n ==> CeilingDraw(s.gen, i) != 0
    ensures n <= t <= 4007 * n
    ensures After(s, spikesOn, t).AtFloor() && After(s, spikesOn, t).gen == FloorGen(s.gen, n)
    decreases n
  {
    hide Next, Newest, Period;
    if n == 0 {
      t := 0;
    } else {
      var was := FloorVisit(s, spikesOn, n - 1);
      var floor, later := After(s, spikesOn, was), Later(spikesOn, was);
      var more := Bounce(floor, later);
      assert CeilingDraw(s.gen, n - 1) == CeilingDraw(floor.gen, 0);
      AfterAdd(s, spikesOn, was, more);
      t := was + more;
    }
  }

  /** The sweep freezes exactly when some visit of the ceiling draws a zero step. */
  lemma FreezesIff(s: Sweep, spikesOn: nat -> bool)
    requires Sound(s) && s.AtFloor() && Off(spikesOn)
    ensures (exists t: nat :: After(s, spikesOn, t).Frozen()) <==> (exists n: nat :: CeilingDraw(s.gen, n) == 0)
  {
    hide Next, Newest, Period;
    if exists n: nat :: CeilingDraw(s.gen, n) == 0 {
      var n: nat :| CeilingDraw(s.gen, n) == 0;
      var t := ZeroFreezes(s, spikesOn, n);
    } else if exists t: nat :: After(s, spikesOn, t).Frozen() {
      var t: nat :| After(s, spikesOn, t).Frozen();
      var visit := FloorVisit(s, spikesOn, t);
      FrozenStays(s, spikesOn, t, visit);
    }
  }

  /** The freeze comes on the rise after the floor visit whose ceiling draw is the first zero, and not before. */
  lemma FreezeTime(s: Sweep, spikesOn: nat -> bool, n: nat) returns (visit: nat, t: nat)
    requires Sound(s) && s.AtFloor() && Off(spikesOn)
    requires CeilingDraw(s.gen, n) == 0 && forall i: nat :: i < n ==> CeilingDraw(s.gen, i) != 0
    ensures n <= visit <= 4007 * n && t == visit + RiseTime(FloorGen(s.gen, n))
    ensures After(s, spikesOn, visit).AtFloor() && After(s, spikesOn, visit).gen == FloorGen(s.gen, n)
    ensures After(s, spikesOn, t).Frozen()
    ensures forall k: nat :: k < t ==> !After(s, spikesOn, k).Frozen()
  {
    hide Next, Newest, Period, After;
    visit := FloorVisit(s, spikesOn, n);
    var floor, later := After(s, spikesOn, visit), Later(spikesOn, visit);
    var up := RiseTime(floor.gen);
    Rise(floor, later);
    t := visit + up;
    AfterAdd(s, spikesOn, visit, up);
    AfterAdd(s, spikesOn, visit, up - 1);
    forall k: nat | k < t ensures !After(s, spikesOn, k).Frozen() {
      if After(s, spikesOn, k).Frozen() {
        FrozenStays(s, spikesOn, k, t - 1);
      }
    }
  }

  lemma ZeroFreezes(s: Sweep, spikesOn: nat -> bool, n: nat) returns (t: nat)
    requires Sound(s) && s.AtFloor() && Off(spikesOn) && CeilingDraw(s.gen, n) == 0
    ensures t <= (n + 1) * 4007 && After(s, spikesOn, t).Frozen()
    ensures forall k: nat :: k < t ==> !After(s, spikesOn, k).Frozen()
  {
    hide Next, Newest, Period, After;
    var first := FirstZero(s.gen, n);
    var visit, frozen := FreezeTime(s, spikesOn, first);
    Rise(After(s, spikesOn, visit), Later(spikesOn, visit));
    t := frozen;
  }

  lemma {:induction false} FirstZero(gen: nat, n: nat) returns (first: nat)
    requires 0 < gen < MODULUS && CeilingDraw(gen, n) == 0
    ensures first <= n && CeilingDraw(gen, first) == 0
    ensures forall i: nat :: i < first ==> CeilingDraw(gen, i) != 0
    decreases n
  {
    if i: nat :| i < n && CeilingDraw(gen, i) == 0 {
      first := FirstZero(gen, i);
    } else {
      first := n;
    }
  }

  lemma FrozenStays(s: Sweep, spikesOn: nat -> bool, t: nat, k: nat)
    requires Sound(s) && After(s, spikesOn, t).Frozen() && t <= k
    ensures After(s, spikesOn, k) == After(s, spikesOn, t)
  {
    hide Next, Newest, Period;
    RunIsSound(s, spikesOn, t);
    AfterAdd(s, spikesOn, t, k - t);
    RunIsSound(After(s, spikesOn, t), Later(spikesOn, t), k - t);
  }

  /**
   With spikes off nothing published ever reaches the spike level, and either the
   sweep stands still at one below it from some period on, or it comes back to the
   floor at least once in every 4007 periods for ever. This holds for every seed.
   */
  lemma OffForEver(s: Sweep, spikesOn: nat -> bool)
    requires Sound(s) && s.AtFloor() && Off(spikesOn)
    ensures forall k: nat :: MV_MIN <= After(s, spikesOn, k).millivolts <= MV_SPIKE - 1
    ensures (exists t: nat :: Stands(s, spikesOn, t)) != (forall k: nat :: FloorSoon(s, spikesOn, k))
  {
    hide Next, Newest, Period;
    forall k: nat ensures MV_MIN <= After(s, spikesOn, k).millivolts <= MV_SPIKE - 1 {
      RunIsSound(s, spikesOn, k);
    }
    if t: nat :| After(s, spikesOn, t).Frozen() {
      forall k: nat | t <= k ensures After(s, spikesOn, k) == After(s, spikesOn, t) {
        FrozenStays(s, spikesOn, t, k);
      }
      assert Stands(s, spikesOn, t);
      assert !FloorSoon(s, spikesOn, t);
    } else {
      forall k: nat ensures FloorSoon(s, spikesOn, k) {
        var j := NextFloor(s, spikesOn, k);
      }
    }
  }

  ghost predicate Stands(s: Sweep, spikesOn: nat -> bool, t: nat) {
    && After(s, spikesOn, t).Frozen()
    && forall k: nat :: t <= k ==> After(s, spikesOn, k) == After(s, spikesOn, t)
  }

  ghost predicate FloorSoon(s: Sweep, spikesOn: nat -> bool, k: nat) {
    exists j: nat :: k <= j < k + 4007 && After(s, spikesOn, j).AtFloor()
  }

  lemma {:induction false} NextFloor(s: Sweep, spikesOn: nat -> bool, k: nat) returns (j: nat)
    requires Sound(s) && s.AtFloor() && Off(spikesOn)
    requires forall n: nat :: !After(s, spikesOn, n).Frozen()
    ensures k <= j < k + 4007 && After(s, spikesOn, j).AtFloor()
    decreases k
  {
    hide Next, Newest, Period;
    if k == 0 {
      j := 0;
    } else {
      j := NextFloor(s, spikesOn, k - 1);
      if j == k - 1 {
        RunIsSound(s, spikesOn, j);
        var floor, later := After(s, spikesOn, j), Later(spikesOn, j);
        var more := Bounce(floor, later);
        AfterAdd(s, spikesOn, j, more);
        j := j + more;
      }
    }
  }

  // ----- the task -----

  /** The task's locals and the generator it draws from, updated in place. */
  class Task {
    var rng: Generator
    var millivolts: int
    var delta: int

    ghost predicate Valid()
      reads this, rng, rng.state
    {
      rng.Valid()
    }

    ghost function State(): Sweep
      requires Valid()
      reads this, rng, rng.state
    {
      Sweep(millivolts, delta, rng.Value())
    }

    constructor ()
      ensures Valid() && fresh(rng) && fresh(rng.state)
      ensures State() == START
    {
      rng := new Generator();
      new;
      var step := rng.Rand8();
      delta := step;
      millivolts := MV_MIN;
    }

    /** One pass of the loop: what it publishes, and how the variables move on. */
    method Iterate(spikesOn: bool) returns (published: int, spike: bool)
      requires Valid()
      modifies this, rng, rng.state
      ensures Valid() && rng == old(rng) && rng.state == old(rng.state)
      ensures published == old(State()).millivolts
      ensures spike == old(State()).Spike()
      ensures State() == Period(old(State()), spikesOn)
    {
      hide Next, Newest;
      published := millivolts;
      spike := millivolts >= MV_SPIKE;
      millivolts := millivolts + delta;
      if millivolts >= MV_MAX {
        millivolts := MV_MAX;
        var step := rng.Rand8();
        delta := -(step as int);
      } else if millivolts <= MV_MIN {
        millivolts := MV_MIN;
        var step := rng.Rand8();
        delta := step;
      }
      if !spikesOn {
        if millivolts >= MV_SPIKE {
          millivolts := MV_SPIKE - 1;
        }
      }
    }

    /** The loop itself, for as many periods as the list gives the switch's value for. */
    method Run(spikeSwitch: seq<bool>) returns (log: seq<(int, bool)>)
      requires Valid()
      modifies this, rng, rng.state
      ensures Valid() && rng == old(rng) && rng.state == old(rng.state)
      ensures log == Log(old(State()), Switch(spikeSwitch), |spikeSwitch|)
      ensures State() == After(old(State()), Switch(spikeSwitch), |spikeSwitch|)
    {
      hide Next, Newest, Period;
      ghost var start := State();
      log := [];
      for k := 0 to |spikeSwitch|
        invariant Valid() && rng == old(rng) && rng.state == old(rng.state)
        invariant log == Log(start, Switch(spikeSwitch), k)
        invariant State() == After(start, Switch(spikeSwitch), k)
      {
        var published, spike := Iterate(spikeSwitch[k]);
        log := log + [(published, spike)];
      }
    }
  }

  /** What is published in the first k periods. */
  function Log(s: Sweep, spikesOn: nat -> bool, k: nat): (log: seq<(int, bool)>)
    ensures |log| == k
    ensures forall j: nat :: j < k ==> log[j] == (After(s, spikesOn, j).millivolts, After(s, spikesOn, j).Spike())
  {
    if k == 0 then [] else
      var last := After(s, spikesOn, k - 1);
      Log(s, spikesOn, k - 1) + [(last.millivolts, last.Spike())]
  }

  function Switch(values: seq<bool>): nat -> bool {
    (k: nat) => k < |values| && values[k]
  }
}
