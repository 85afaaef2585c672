/**
 The 32-bit random number source of the network stack (freertos/src/ip.c): a linear
 congruential generator whose state runs through all 2^32 values, and whose
 15-bit output repeats after exactly 2^31 draws.
 */
module UxRand {
  import opened Numbers

  // The multiplier 0x015a4e35 is 1 modulo 4, the increment is 1.
  const RANGE: nat := 0x1_0000_0000

  /** The state after one draw, and the number a state yields. */
  function Step(s: nat): nat {
    (0x015a4e35 * s + 1) % 0x1_0000_0000
  }

  function Yield(s: nat): nat {
    (s / 0x1_0000) % 0x8000
  }

  /** A draw is multiplication by 0x015a4e35 and addition of 1, cut to 32 bits. */
  lemma StepIsCut(s: nat)
    ensures Step(s) < 0x1_0000_0000
    ensures exists k: nat :: 0x015a4e35 * s + 1 == 0x1_0000_0000 * k + Step(s)
  {
    var k := (0x015a4e35 * s + 1) / 0x1_0000_0000;
    assert 0x015a4e35 * s + 1 == 0x1_0000_0000 * k + Step(s);
  }

  /** A state yields its bits 16 to 30: cut out of the number by a high and a low part. */
  lemma YieldIsMiddle(high: nat, middle: nat, low: nat)
    requires middle < 0x8000 && low < 0x1_0000
    ensures Yield(0x8000_0000 * high + 0x1_0000 * middle + low) == middle
  {
    DivModUnique(0x1_0000, 0x8000 * high + middle, low);
    DivModUnique(0x8000, high, middle);
  }

  function Nth(s: nat, n: nat): nat {
    if n == 0 then s else Step(Nth(s, n - 1))
  }

  /** Draw number n, counting from 0. */
  function Draw(s: nat, n: nat): nat {
    Yield(Nth(s, n + 1))
  }

  lemma {:induction false} NthAdd(s: nat, j: nat, k: nat)
    ensures Nth(s, j + k) == Nth(Nth(s, j), k)
  {
    hide Step;
    if k > 0 {
      NthAdd(s, j, k - 1);
    }
  }

  lemma NthInRange(s: nat, n: nat)
    requires s < RANGE
    ensures Nth(s, n) < RANGE
  {
  }

  // ----- closed form -----

  /** 1 + a + a^2 + ... with n terms, a the multiplier. */
  function Geometric(n: nat): nat {
    if n == 0 then 0 else 0x015a4e35 * Geometric(n - 1) + 1
  }

  /** How far n draws move the state, before reduction to 32 bits. */
  function Shift(s: nat, n: nat): nat {
    (0x015a4e34 * s + 1) * Geometric(n)
  }

  predicate Divides(p: nat, x: int)
    requires p > 0
  {
    x % p == 0
  }

  lemma {:induction false} ClosedForm(s: nat, n: nat)
    requires s < RANGE
    ensures Nth(s, n) == (s + Shift(s, n)) % RANGE
  {
    if n > 0 {
      ClosedForm(s, n - 1);
      Advance(0x015a4e35, s, 0x015a4e34 * s + 1, Geometric(n - 1));
      StepOfRemainder(s + Shift(s, n - 1));
    }
  }

  lemma Advance(a: nat, s: nat, d: nat, g: nat)
    requires d + s == a * s + 1
    ensures a * (s + d * g) + 1 == s + d * (a * g + 1)
  {
    assert a * (s + d * g) == a * s + d * (a * g);
  }

  lemma StepOfRemainder(t: nat)
    ensures Step(t % 0x1_0000_0000) == Step(t)
  {
    var q, r := t / 0x1_0000_0000, t % 0x1_0000_0000;
    AddMultiples(0x1_0000_0000, 0x015a4e35 * r + 1, 0x015a4e35 * q);
  }

  // ----- powers of two dividing the geometric sum -----

  lemma HalveBoth(p: nat, y: nat)
    requires p > 0
    ensures Divides(2 * p, 2 * y) <==> Divides(p, y)
  {
    var q, r := y / p, y % p;
    assert 2 * y == (2 * p) * q + 2 * r;
    DivModUnique(2 * p, q, 2 * r);
  }

  lemma EvenDivisor(p: nat, x: nat)
    requires p > 0 && Divides(2 * p, x)
    ensures x % 2 == 0
  {
    var q := x / (2 * p);
    assert x == 2 * (p * q);
  }

  lemma OddTimes(x: nat, q: nat)
    ensures (x * (2 * q + 1)) % 2 == x % 2
  {
    assert x * (2 * q + 1) == 2 * (x * q) + x;
  }

  /** An odd factor does not change which powers of two divide. */
  lemma {:induction false} OddFactor(e: nat, x: nat, q: nat)
    ensures Divides(Pow(2, e), x * (2 * q + 1)) <==> Divides(Pow(2, e), x)
  {
    if e > 0 {
      var p := Pow(2, e - 1);
      OddTimes(x, q);
      if x % 2 == 0 {
        var h := x / 2;
        assert x * (2 * q + 1) == 2 * (h * (2 * q + 1));
        HalveBoth(p, h);
        HalveBoth(p, h * (2 * q + 1));
        OddFactor(e - 1, h, q);
      } else {
        if Divides(2 * p, x) { EvenDivisor(p, x); }
        if Divides(2 * p, x * (2 * q + 1)) { EvenDivisor(p, x * (2 * q + 1)); }
      }
    }
  }

  lemma {:induction false} PowerFromSum(n: nat)
    ensures Pow(0x015a4e35, n) == 1 + 0x015a4e34 * Geometric(n)
  {
    if n > 0 {
      PowerFromSum(n - 1);
    }
  }

  lemma {:induction false} SumOfSum(j: nat, k: nat)
    ensures Geometric(j + k) == Geometric(j) * Pow(0x015a4e35, k) + Geometric(k)
  {
    if k > 0 {
      SumOfSum(j, k - 1);
      OneMoreFactor(0x015a4e35, Geometric(j), Pow(0x015a4e35, k - 1), Geometric(k - 1));
    }
  }

  lemma OneMoreFactor(a: nat, g: nat, w: nat, h: nat)
    ensures a * (g * w + h) == g * (a * w) + a * h
  {
  }

  /** Doubling the number of terms doubles the sum, up to an odd factor: the multiplier is 1 modulo 4. */
  lemma DoubleTerms(k: nat) returns (odd: nat)
    ensures Geometric(2 * k) == 2 * (Geometric(k) * (2 * odd + 1))
  {
    var g := Geometric(k);
    odd := 5673869 * g;
    SumOfSum(k, k);
    PowerFromSum(k);
    assert 0x015a4e34 * g == 2 * odd + 2 * odd;
    assert g * (1 + 2 * odd + 2 * odd) + g == 2 * (g * (2 * odd + 1));
  }

  lemma {:induction false} SumParity(n: nat)
    ensures Geometric(n) % 2 == n % 2
  {
    if n > 0 {
      SumParity(n - 1);
      OddTimesPlusOne(Geometric(n - 1), n - 1);
    }
  }

  /** An odd multiple of g, plus one, has the parity of n + 1 if g has that of n. */
  lemma OddTimesPlusOne(g: nat, n: nat)
    requires g % 2 == n % 2
    ensures (0x015a4e35 * g + 1) % 2 == (n + 1) % 2
  {
    var h, r := g / 2, g % 2;
    assert 0x015a4e35 * g + 1 == 2 * (11347738 * g + h) + (r + 1);
    AddMultiples(2, r + 1, 11347738 * g + h);
    AddMultiples(2, r + 1, n / 2);
  }

  /** A power of two divides the sum of n terms exactly when it divides n. */
  lemma {:induction false} SumDivides(e: nat, n: nat)
    ensures Divides(Pow(2, e), Geometric(n)) <==> Divides(Pow(2, e), n)
    decreases e
  {
    if e > 0 {
      var p := Pow(2, e - 1);
      SumParity(n);
      if n % 2 == 0 {
        var k := n / 2;
        var odd := DoubleTerms(k);
        HalveBoth(p, k);
        HalveBoth(p, Geometric(k) * (2 * odd + 1));
        OddFactor(e - 1, Geometric(k), odd);
        SumDivides(e - 1, k);
      } else {
        if Divides(2 * p, n) { EvenDivisor(p, n); }
        if Divides(2 * p, Geometric(n)) { EvenDivisor(p, Geometric(n)); }
      }
    }
  }

  /** The same for the shift: the factor in front of the sum is odd. */
  lemma {:induction false} ShiftDivides(e: nat, s: nat, n: nat)
    ensures Divides(Pow(2, e), Shift(s, n)) <==> Divides(Pow(2, e), n)
  {
    hide Divides;
    var q, g := 11347738 * s, Geometric(n);
    assert Shift(s, n) == (2 * q + 1) * g == g * (2 * q + 1);
    OddFactor(e, Geometric(n), q);
    SumDivides(e, n);
  }

  // ----- full period of the state -----

  lemma PowersOfTwo()
    ensures Pow(2, 30) == 0x4000_0000 && Pow(2, 31) == 0x8000_0000 && Pow(2, 32) == 0x1_0000_0000
  {
    assert Pow(2, 8) == 256;
    PowAdd(2, 8, 8);
    PowAdd(2, 16, 8);
    PowAdd(2, 24, 6);
    assert Pow(2, 6) == 64;
  }

  lemma SameRemainder(s: nat, d: nat)
    requires s < RANGE
    ensures (s + d) % 0x1_0000_0000 == s <==> Divides(0x1_0000_0000, d)
  {
  }

  /** A run comes back to a state exactly after multiples of 2^32 draws. */
  lemma Returns(s: nat, n: nat)
    requires s < RANGE
    ensures Nth(s, n) == s <==> n % RANGE == 0
  {
    ClosedForm(s, n);
    ShiftDivides(32, s, n);
    PowersOfTwo();
    SameRemainder(s, Shift(s, n));
  }

  lemma SameClass(i: nat, d: nat)
    ensures d % 0x1_0000_0000 == 0 <==> i % 0x1_0000_0000 == (i + d) % 0x1_0000_0000
  {
  }

  lemma {:induction false} FullPeriod(s: nat, i: nat, j: nat)
    requires s < RANGE
    ensures Nth(s, i) == Nth(s, j) <==> i % RANGE == j % RANGE
  {
    hide Step;
    if i <= j {
      NthAdd(s, i, j - i);
      NthInRange(s, i);
      Returns(Nth(s, i), j - i);
      SameClass(i, j - i);
    } else {
      FullPeriod(s, j, i);
    }
  }

  /** Every 32-bit state is met within one period, whatever the seed. */
  lemma EveryStateIsMet(s: nat, target: nat)
    requires s < RANGE && target < RANGE
    ensures exists n: nat :: n < RANGE && Nth(s, n) == target
  {
    hide Step, Nth;
    var f := (n: nat) => Nth(s, n);
    forall i: nat, j: nat | i < j < RANGE ensures f(i) != f(j) {
      FullPeriod(s, i, j);
    }
    forall i: nat | i < RANGE ensures f(i) < RANGE {
      NthInRange(s, i);
    }
    InjectionIsOnto(f, RANGE, target);
    var n: nat :| n < RANGE && f(n) == target;
  }

  // ----- period of the output -----

  /** Bit 31 of the state is never returned. */
  lemma YieldIgnoresTopBit(s: nat)
    ensures Yield(s) == Yield(s % 0x8000_0000)
  {
  }

  lemma HalfTurn(a: nat, b: nat)
    requires b % 0x8000_0000 == (a + 0x4000_0000) % 0x8000_0000
    ensures Yield(b) % 0x4000 == Yield(a) % 0x4000
    ensures Yield(b) / 0x4000 != Yield(a) / 0x4000
  {
    hide Yield;
    var low := a % 0x8000_0000;
    YieldIgnoresTopBit(a);
    YieldIgnoresTopBit(b);
    var high := if low < 0x4000_0000 then low + 0x4000_0000 else low - 0x4000_0000;
    assert b % 0x8000_0000 == high;
    LowYield(low);
    LowYield(high);
  }

  lemma LowYield(x: nat)
    requires x < 0x8000_0000
    ensures Yield(x) == x / 0x1_0000 < 0x8000
  {
  }

  /** 2^30 draws later the top returned bit is the opposite one and the other 14 are the same. */
  lemma HalfPeriodFlips(s: nat, n: nat)
    requires s < RANGE
    ensures Draw(s, n + 0x4000_0000) % 0x4000 == Draw(s, n) % 0x4000
    ensures Draw(s, n + 0x4000_0000) / 0x4000 != Draw(s, n) / 0x4000
  {
    hide Step, Yield, Shift, Nth;
    var u := Nth(s, n + 1);
    NthInRange(s, n + 1);
    NthAdd(s, n + 1, 0x4000_0000);
    ClosedForm(u, 0x4000_0000);
    PowersOfTwo();
    ShiftDivides(30, u, 0x4000_0000);
    ShiftDivides(31, u, 0x4000_0000);
    OddMultiple(u, Shift(u, 0x4000_0000));
    HalfTurn(u, Nth(u, 0x4000_0000));
  }

  lemma OddMultiple(u: nat, d: nat)
    requires Divides(0x4000_0000, d) && !Divides(0x8000_0000, d)
    ensures ((u + d) % 0x1_0000_0000) % 0x8000_0000 == (u + 0x4000_0000) % 0x8000_0000
  {
    var h := d / 0x8000_0000;
    assert d == 0x8000_0000 * h + 0x4000_0000;
    EvenMultiple(u + 0x4000_0000, 0x8000_0000 * h);
  }

  lemma FullTurnRepeats(s: nat, n: nat)
    requires s < RANGE
    ensures Draw(s, n + 0x8000_0000) == Draw(s, n)
  {
    hide Step, Yield, Shift, Nth;
    var u := Nth(s, n + 1);
    NthInRange(s, n + 1);
    NthAdd(s, n + 1, 0x8000_0000);
    ClosedForm(u, 0x8000_0000);
    PowersOfTwo();
    ShiftDivides(31, u, 0x8000_0000);
    EvenMultiple(u, Shift(u, 0x8000_0000));
    YieldIgnoresTopBit(u);
    YieldIgnoresTopBit(Nth(u, 0x8000_0000));
  }

  lemma EvenMultiple(u: nat, d: nat)
    requires Divides(0x8000_0000, d)
    ensures ((u + d) % 0x1_0000_0000) % 0x8000_0000 == u % 0x8000_0000
  {
  }

  ghost predicate IsPeriod(s: nat, p: nat) {
    forall n: nat :: Draw(s, n + p) == Draw(s, n)
  }

  lemma {:induction false} PeriodMultiples(s: nat, p: nat, k: nat)
    requires IsPeriod(s, p)
    ensures IsPeriod(s, p * k)
  {
    hide Draw;
    if k > 0 {
      PeriodMultiples(s, p, k - 1);
      assert p * k == p * (k - 1) + p;
      forall n: nat ensures Draw(s, n + p * k) == Draw(s, n) {
        assert Draw(s, (n + p * (k - 1)) + p) == Draw(s, n + p * (k - 1));
      }
    } else {
      assert p * 0 == 0;
    }
  }

  lemma TwiceRemainder(m: nat, x: nat, r: nat)
    requires m > 0 && x % m == r
    ensures (2 * x) % (2 * m) == 2 * r
  {
    var q := x / m;
    assert 2 * x == (2 * m) * q + 2 * r;
    DivModUnique(2 * m, q, 2 * r);
  }

  lemma OddTimesHalf(h: nat, k: nat)
    requires k > 0
    ensures ((2 * h + 1) * k) % (2 * k) == k
  {
    assert (2 * h + 1) * k == (2 * k) * h + k;
    DivModUnique(2 * k, h, k);
  }

  /** A number below 2^31 times some power of two is an odd multiple of 2^30. */
  lemma {:induction false} DoubleToHalf(e: nat, p: nat) returns (k: nat)
    requires e <= 30 && !Divides(Pow(2, e + 1), p)
    ensures (p * k) % Pow(2, e + 1) == Pow(2, e)
    decreases e
  {
    if p % 2 == 1 {
      k := Pow(2, e);
      OddTimesHalf(p / 2, k);
    } else {
      var h := p / 2;
      HalveBoth(Pow(2, e), h);
      k := DoubleToHalf(e - 1, h);
      TwiceRemainder(Pow(2, e), h * k, Pow(2, e - 1));
      assert (2 * h) * k == 2 * (h * k);
    }
  }

  /** The numbers returned repeat with a period p exactly when 2^31 divides p: the least period is 2^31. */
  lemma OutputPeriod(s: nat, p: nat)
    requires s < RANGE
    ensures IsPeriod(s, p) <==> p % 0x8000_0000 == 0
  {
    PowersOfTwo();
    if p % 0x8000_0000 == 0 {
      forall n: nat { FullTurnRepeats(s, n); }
      assert IsPeriod(s, 0x8000_0000);
      PeriodMultiples(s, 0x8000_0000, p / 0x8000_0000);
    } else if IsPeriod(s, p) {
      var k := DoubleToHalf(30, p);
      PeriodMultiples(s, p, k);
      forall n: nat { FullTurnRepeats(s, n); }
      assert IsPeriod(s, 0x8000_0000);
      PeriodMultiples(s, 0x8000_0000, (p * k) / 0x8000_0000);
      var turns := 0x8000_0000 * ((p * k) / 0x8000_0000);
      assert p * k == 0x4000_0000 + turns;
      assert Draw(s, (0 + 0x4000_0000) + turns) == Draw(s, 0x4000_0000);
      assert Draw(s, 0 + p * k) == Draw(s, 0);
      HalfPeriodFlips(s, 0);
    }
  }

  // ----- the generator and its callers -----

  /**
   The global state. The ghost fields remember the seed and what was handed out, so
   that Valid() says: whichever caller drew when, the numbers handed out are the
   draws of one run from the seed.
   */
  class Source {
    var nextRand: nat
    ghost var seed: nat
    ghost var handedOut: seq<nat>

    ghost predicate Valid()
      reads this
    {
      && seed < RANGE
      && nextRand == Nth(seed, |handedOut|)
      && forall k: nat :: k < |handedOut| ==> handedOut[k] == Draw(seed, k)
    }

    constructor (now: nat)
      ensures Valid() && seed == now % RANGE && handedOut == []
    {
      nextRand := now % RANGE;
      seed := now % RANGE;
      handedOut := [];
    }

    method UxRand() returns (r: nat)
      requires Valid()
      modifies this
      ensures Valid() && seed == old(seed)
      ensures handedOut == old(handedOut) + [r] && r < 0x8000
    {
      hide Draw;
      var mult: nat, inc: nat := 0x015a4e35, 1;
      nextRand := (mult * nextRand + inc) % RANGE;
      r := (nextRand / 0x1_0000) % 0x8000;
      assert nextRand == Nth(seed, |handedOut| + 1);
      assert r == Draw(seed, |handedOut|) by { DrawIs(seed, |handedOut|); }
      handedOut := handedOut + [r];
    }

    /** The initial sequence number of a connection; the four address arguments are not used. */
    method GetNextSequenceNumber(srcAddr: nat, srcPort: nat, dstAddr: nat, dstPort: nat) returns (r: nat)
      requires Valid()
      modifies this
      ensures Valid() && seed == old(seed)
      ensures handedOut == old(handedOut) + [r] && r < 0x8000
    {
      r := UxRand();
    }

    /** Writes the number through the caller's pointer and reports success. */
    method GetRandomNumber(num: array<nat>) returns (ok: bool)
      requires Valid() && num.Length == 1
      modifies this, num
      ensures Valid() && seed == old(seed)
      ensures ok && handedOut == old(handedOut) + [num[0]] && num[0] < 0x8000
    {
      var r := UxRand();
      num[0] := r;
      ok := true;
    }
  }

  lemma DrawIs(s: nat, n: nat)
    ensures Draw(s, n) == (Nth(s, n + 1) / 0x1_0000) % 0x8000
  {
  }
}
