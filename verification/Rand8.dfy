/**
 The byte generator of the voltage monitor (freertos/src/voltage_monitor.c).

 The generator holds seven bytes in a rotating array and a carry. Read as one
 number N = (the seven bytes, oldest first, in base 256) + carry * 256^7, a call
 is division by 256 modulo MODULUS: 256 * N' = N + (byte consumed) * MODULUS.
 Everything below is about that number; the class at the end shows that the
 in-place 16-bit code computes it.
 */
module Rand8 {
  import opened Machine
  import opened Numbers

  const STATE_BYTES := 7
  const MULT := 0x13B
  const MULT_LO := 0x3B   // MULT & 255
  const MULT_HI := 0x100  // MULT & 256
  const CARRY_MAX := MULT - 1

  const B6: nat := 0x1_0000_0000_0000
  const B7: nat := 0x100_0000_0000_0000
  const MODULUS: nat := MULT * B7 - 1

  // ----- the generator as a number -----

  /** One call. */
  function Next(n: nat): nat {  // 0x13B_0000_0000_0000 is MULT * 256^6
    n / 256 + (n % 256) * 0x13B_0000_0000_0000
  }

  /** The byte that the last call produced and returned: the newest digit. */
  function Newest(n: nat): Byte {
    (n / 0x1_0000_0000_0000) % 256
  }

  function Nth(n: nat, k: nat): nat {
    if k == 0 then n else Next(Nth(n, k - 1))
  }

  /** The byte call number k (from 0) consumes, and the one it returns. */
  function Consumed(n: nat, k: nat): Byte {
    Nth(n, k) % 256
  }

  function Returned(n: nat, k: nat): Byte {
    Newest(Nth(n, k + 1))
  }

  /** The first k consumed bytes as one little-endian number. */
  function ConsumedNumber(n: nat, k: nat): nat {
    if k == 0 then 0 else ConsumedNumber(n, k - 1) + Consumed(n, k - 1) * Pow(256, k - 1)
  }

  lemma StepIdentity(n: nat)
    ensures 256 * Next(n) == n + (n % 256) * MODULUS
  {
  }

  lemma StepStays(n: nat)
    requires n <= MODULUS
    ensures Next(n) <= MODULUS
    ensures 0 < n < MODULUS <==> 0 < Next(n) < MODULUS
  {
    StepIdentity(n);
  }

  lemma {:induction false} RunStays(n: nat, k: nat)
    requires n <= MODULUS
    ensures Nth(n, k) <= MODULUS
    ensures 0 < n < MODULUS <==> 0 < Nth(n, k) < MODULUS
  {
    if k > 0 {
      RunStays(n, k - 1);
      StepStays(Nth(n, k - 1));
    }
  }

  lemma {:induction false} NthAdd(n: nat, j: nat, k: nat)
    ensures Nth(n, j + k) == Nth(Nth(n, j), k)
  {
    if k > 0 {
      NthAdd(n, j, k - 1);
    }
  }

  lemma ShiftIn(p: nat, start: nat, m: nat, d: nat, was: nat, next: nat, x: nat)
    requires p * was == start + m * d
    requires 256 * next == was + x * m
    ensures (256 * p) * next == start + m * (d + x * p)
  {
    calc {
      (256 * p) * next;
      p * (256 * next);
      p * (was + x * m);
      p * was + p * (x * m);
      start + m * d + m * (x * p);
    }
  }

  /** After k calls the state is the start plus a multiple of the modulus, divided by 256^k. */
  lemma {:induction false} RunIdentity(n: nat, k: nat)
    ensures Pow(256, k) * Nth(n, k) == n + MODULUS * ConsumedNumber(n, k)
  {
    if k > 0 {
      RunIdentity(n, k - 1);
      StepIdentity(Nth(n, k - 1));
      ShiftIn(Pow(256, k - 1), n, MODULUS, ConsumedNumber(n, k - 1), Nth(n, k - 1), Next(Nth(n, k - 1)), Consumed(n, k - 1));
    }
  }

  // ----- a call can be undone -----

  /** Multiplication by 256 modulo MODULUS, with both ends of 0..MODULUS kept apart. */
  function Previous(n: nat): nat {
    256 * (n % (MULT * B6)) + n / (MULT * B6)
  }

  lemma StepIsInvertible(n: nat)
    requires n <= MODULUS
    ensures Next(n) <= MODULUS && Previous(Next(n)) == n
    ensures Previous(n) <= MODULUS && Next(Previous(n)) == n
    ensures n < MODULUS ==> Previous(n) == (256 * n) % MODULUS
  {
    DivModUnique(MULT * B6, n % 256, n / 256);
    DivModUnique(256, n % (MULT * B6), n / (MULT * B6));
    var x, q := n / (MULT * B6), n % (MULT * B6);
    assert Previous(n) == 256 * n - x * MODULUS;
    if n < MODULUS {
      DivModUnique(MODULUS, x, Previous(n));
    }
  }

  lemma {:induction false} RunIsInjective(a: nat, b: nat, k: nat)
    requires a <= MODULUS && b <= MODULUS
    requires Nth(a, k) == Nth(b, k)
    ensures a == b
  {
    if k > 0 {
      RunStays(a, k - 1);
      RunStays(b, k - 1);
      StepIsInvertible(Nth(a, k - 1));
      StepIsInvertible(Nth(b, k - 1));
      RunIsInjective(a, b, k - 1);
    }
  }

  lemma OnlyTheEnds(e: int, x: Byte)
    requires 255 * e == 59 * x
    ensures x == 0 || x == 255
  {
    assert x == 255 * (134 * e - 31 * x);
  }

  /** A call leaves the number alone only at the two ends of the range. */
  lemma FixedNumbers(n: nat)
    requires n <= MODULUS
    ensures Next(n) == n <==> n == 0 || n == MODULUS
  {
    StepIdentity(n);
    if Next(n) == n {
      var x := n % 256;
      assert MODULUS == 255 * (MODULUS / 255) + 59;
      OnlyTheEnds(n - x * (MODULUS / 255), x);
    }
  }

  /** From every state the generator comes back to it within MODULUS calls. */
  lemma Recurs(n: nat)
    requires n <= MODULUS
    ensures exists k :: 0 < k <= MODULUS && Nth(n, k) == n
  {
    hide Next;
    if n == 0 || n == MODULUS {
      FixedNumbers(n);
      assert Nth(n, 1) == Next(Nth(n, 0));
    } else {
      var f := (j: nat) => Nth(n, j);
      forall i: nat | i <= MODULUS ensures f(i) < MODULUS {
        RunStays(n, i);
      }
      Pigeonhole(f, MODULUS);
      var i: nat, j: nat :| i < j <= MODULUS && f(i) == f(j);
      NthAdd(n, j - i, i);
      RunStays(n, j - i);
      RunIsInjective(n, Nth(n, j - i), i);
    }
  }

  // ----- nine bytes determine everything -----

  lemma {:induction false} SameConsumed(a: nat, b: nat, k: nat)
    requires forall j: nat :: j < k ==> Consumed(a, j) == Consumed(b, j)
    ensures ConsumedNumber(a, k) == ConsumedNumber(b, k)
  {
    if k > 0 {
      SameConsumed(a, b, k - 1);
    }
  }

  lemma NineConsumedDetermine(a: nat, b: nat)
    requires a <= MODULUS && b <= MODULUS
    requires forall j: nat :: j < 9 ==> Consumed(a, j) == Consumed(b, j)
    ensures a == b
  {
    SameConsumed(a, b, 9);
    RunIdentity(a, 9);
    RunIdentity(b, 9);
    var p := Pow(256, 9);
    assert p == 256 * 256 * B7;
    assert a - b == p * (Nth(a, 9) - Nth(b, 9));
    MultipleWithin(p, a - b, Nth(a, 9) - Nth(b, 9));
  }

  // ----- a byte comes back seven calls after it was produced -----

  /** A call moves a digit y from place 256 * p down to place p, as long as 256 * p divides 256^6. */
  lemma DigitMovesDown(n: nat, p: nat, q: nat, y: Byte, low: nat, high: nat)
    requires 256 * p * q == B6
    requires n == low + 256 * p * (y + 256 * high) && low < 256 * p
    ensures Next(n) == low / 256 + p * (y + 256 * (high + (n % 256) * MULT * q))
  {
    var t := p * (y + 256 * high);
    assert 256 * p * (y + 256 * high) == 256 * t;
    assert n / 256 == low / 256 + t;
    var x := n % 256;
    calc {
      p * (y + 256 * (high + x * MULT * q));
      t + p * (256 * (x * MULT * q));
      t + x * MULT * (256 * p * q);
    }
  }

  lemma PlaceBelow(d: nat)
    requires 0 < d <= 6
    ensures Pow(256, d) == 256 * Pow(256, d - 1)
    ensures 256 * Pow(256, d - 1) * Pow(256, 6 - d) == B6
  {
    PowAdd(256, d, 6 - d);
    assert Pow(256, 6) == B6;
  }

  lemma {:induction false} DigitReachesBottom(n: nat, d: nat, y: Byte, low: nat, high: nat)
    requires d <= 6
    requires n == low + Pow(256, d) * (y + 256 * high) && low < Pow(256, d)
    ensures Consumed(n, d) == y
    decreases d
  {
    if d > 0 {
      hide Next, Pow;
      PlaceBelow(d);
      var q := Pow(256, 6 - d);
      DigitMovesDown(n, Pow(256, d - 1), q, y, low, high);
      DigitReachesBottom(Next(n), d - 1, y, low / 256, high + (n % 256) * MULT * q);
      NthAdd(n, 1, d - 1);
      assert Nth(n, 1) == Next(Nth(n, 0));
    }
  }

  lemma ReturnedIsConsumedLater(n: nat, k: nat)
    ensures Consumed(n, k + 7) == Returned(n, k)
  {
    hide Next;
    var after := Nth(n, k + 1);
    assert Pow(256, 6) == 0x1_0000_0000_0000;
    DigitReachesBottom(after, 6, Newest(after), after % 0x1_0000_0000_0000, after / 0x100_0000_0000_0000);
    NthAdd(n, k + 1, 6);
  }

  lemma NineReturnedDetermine(a: nat, b: nat)
    requires a <= MODULUS && b <= MODULUS
    requires forall j: nat :: j < 9 ==> Returned(a, j) == Returned(b, j)
    ensures a == b
  {
    forall j: nat | j < 9 ensures Consumed(Nth(a, 7), j) == Consumed(Nth(b, 7), j) {
      ReturnedIsConsumedLater(a, j);
      ReturnedIsConsumedLater(b, j);
      NthAdd(a, 7, j);
      NthAdd(b, 7, j);
    }
    RunStays(a, 7);
    RunStays(b, 7);
    NineConsumedDetermine(Nth(a, 7), Nth(b, 7));
    RunIsInjective(a, b, 7);
  }

  /** Nine consecutive returned bytes, from call k on. */
  function Window(n: nat, k: nat): (w: seq<Byte>)
    ensures |w| == 9 && forall j :: 0 <= j < 9 ==> w[j] == Returned(Nth(n, k), j)
  {
    seq(9, j requires 0 <= j < 9 => Returned(Nth(n, k), j))
  }

  lemma WindowIs(n: nat, k: nat, j: nat)
    requires j < 9
    ensures Window(n, k)[j] == Returned(n, k + j)
  {
    hide Next, Newest;
    NthAdd(n, k, j + 1);
  }

  /** If two runs anywhere return the same nine bytes in a row, they were in the same state before them. */
  lemma AnyNineDetermine(a: nat, i: nat, b: nat, k: nat)
    requires a <= MODULUS && b <= MODULUS
    requires Window(a, i) == Window(b, k)
    ensures Nth(a, i) == Nth(b, k)
  {
    hide Next, Newest, Returned;
    RunStays(a, i);
    RunStays(b, k);
    forall j: nat | j < 9 ensures Returned(Nth(a, i), j) == Returned(Nth(b, k), j) {
      assert Window(a, i)[j] == Window(b, k)[j];
    }
    NineReturnedDetermine(Nth(a, i), Nth(b, k));
  }

  lemma {:induction false} ZeroStays(k: nat)
    ensures Nth(0, k) == 0
  {
    if k > 0 {
      ZeroStays(k - 1);
    }
  }

  lemma NonZeroWithinNine(n: nat)
    requires 0 < n <= MODULUS
    ensures exists j :: 0 <= j < 9 && Returned(n, j) != 0
  {
    if forall j: nat :: j < 9 ==> Returned(n, j) == 0 {
      forall j: nat | j < 9 ensures Returned(n, j) == Returned(0, j) {
        ZeroStays(j + 1);
      }
      NineReturnedDetermine(n, 0);
    }
  }

  /** On no run but the all-zero one are there ever nine zero bytes in a row. */
  lemma NoNineZeros(n: nat, k: nat)
    requires 0 < n <= MODULUS
    ensures exists j :: k <= j < k + 9 && Returned(n, j) != 0
  {
    hide Next, Newest;
    RunStays(n, k);
    assert Nth(n, k) > 0 by {
      if Nth(n, k) == 0 {
        ZeroStays(k);
        RunIsInjective(n, 0, k);
      }
    }
    NonZeroWithinNine(Nth(n, k));
    var j :| 0 <= j < 9 && Returned(Nth(n, k), j) != 0;
    WindowIs(n, k, j);
    assert Returned(n, k + j) != 0;
  }

  lemma {:induction false} EveryStateHasAPast(n: nat, k: nat) returns (past: nat)
    requires n <= MODULUS
    ensures past <= MODULUS && Nth(past, k) == n
    decreases k
  {
    if k == 0 {
      past := n;
    } else {
      StepIsInvertible(n);
      past := EveryStateHasAPast(Previous(n), k - 1);
    }
  }

  lemma {:induction false} PowersOf256(k: nat, j: nat)
    requires j <= k <= 8
    ensures Nth(Pow(256, k), j) == Pow(256, k - j)
  {
    if j > 0 {
      PowersOf256(k, j - 1);
      assert Pow(256, k - j + 1) == 256 * Pow(256, k - j);
    }
  }

  lemma ZeroReturned(n: nat, j: nat)
    requires Nth(n, 7) == Pow(256, 8) && j < 8
    ensures Returned(n, j) == 0
  {
    hide Next, Newest;
    PowersOf256(8, j);
    NthAdd(n, 7, j);
    var p := Pow(256, 7 - j);
    assert Nth(n, j + 7) == 256 * p;
    DivModUnique(256, p, 0);
    ReturnedIsConsumedLater(n, j);
  }

  lemma EightZerosFrom() returns (n: nat)
    ensures 0 < n < MODULUS
    ensures forall j :: 0 <= j < 8 ==> Returned(n, j) == 0
  {
    assert Pow(256, 8) == 256 * B7;
    n := EveryStateHasAPast(Pow(256, 8), 7);
    forall j | 0 <= j < 8 ensures Returned(n, j) == 0 {
      ZeroReturned(n, j);
    }
    RunStays(n, 7);
  }

  // ----- bytes, carry and the number they stand for -----

  /** Little-endian value of a list of bytes. */
  function Le(s: seq<Byte>): nat {
    if s == [] then 0 else s[0] + 256 * Le(s[1..])
  }

  lemma {:induction false} LeBound(s: seq<Byte>)
    ensures Le(s) < Pow(256, |s|)
  {
    if s != [] {
      LeBound(s[1..]);
    }
  }

  lemma {:induction false} LeAppend(s: seq<Byte>, y: Byte)
    ensures Le(s + [y]) == Le(s) + Pow(256, |s|) * y
  {
    if s != [] {
      LeAppend(s[1..], y);
      assert (s + [y])[1..] == s[1..] + [y];
      assert Pow(256, |s|) * y == 256 * (Pow(256, |s| - 1) * y);
    } else {
      assert ([y])[1..] == [];
    }
  }

  lemma {:induction false} LeIsInjective(a: seq<Byte>, b: seq<Byte>)
    requires |a| == |b| && Le(a) == Le(b)
    ensures a == b
  {
    if a != [] {
      assert a[0] == b[0];
      LeIsInjective(a[1..], b[1..]);
      assert a == [a[0]] + a[1..];
      assert b == [b[0]] + b[1..];
    }
  }

  function Number(bytes: seq<Byte>, carry: Word): nat {
    Le(bytes) + carry * 0x100_0000_0000_0000
  }

  lemma NumberInRange(bytes: seq<Byte>, carry: Word)
    requires |bytes| == STATE_BYTES && carry <= CARRY_MAX
    ensures Number(bytes, carry) <= MODULUS
  {
    LeBound(bytes);
    assert Pow(256, 7) == B7;
  }

  /** The number hides nothing: it gives back the bytes in their order and the carry. */
  lemma NumberIsFaithful(a: seq<Byte>, ca: Word, b: seq<Byte>, cb: Word)
    requires |a| == |b| == STATE_BYTES
    requires Number(a, ca) == Number(b, cb)
    ensures a == b && ca == cb
  {
    LeBound(a);
    LeBound(b);
    assert Pow(256, 7) == 0x100_0000_0000_0000;
    DivModUnique(0x100_0000_0000_0000, ca, Le(a));
    DivModUnique(0x100_0000_0000_0000, cb, Le(b));
    LeIsInjective(a, b);
  }

  /** The bytes of a number below 256^k. */
  function Bytes(n: nat, k: nat): (bytes: seq<Byte>)
    ensures |bytes| == k
  {
    if k == 0 then [] else [n % 256] + Bytes(n / 256, k - 1)
  }

  lemma {:induction false} LeOfBytes(n: nat, k: nat)
    requires n < Pow(256, k)
    ensures Le(Bytes(n, k)) == n
    decreases k
  {
    if k > 0 {
      LeOfBytes(n / 256, k - 1);
      assert Bytes(n, k)[1..] == Bytes(n / 256, k - 1);
    }
  }

  /** Every number up to the modulus is that of seven bytes and a carry the code can hold. */
  lemma NumberIsOnto(n: nat) returns (bytes: seq<Byte>, carry: Word)
    requires n <= MODULUS
    ensures |bytes| == STATE_BYTES && carry <= CARRY_MAX && Number(bytes, carry) == n
  {
    assert Pow(256, 7) == 0x100_0000_0000_0000;
    bytes, carry := Bytes(n % 0x100_0000_0000_0000, 7), n / 0x100_0000_0000_0000;
    LeOfBytes(n % 0x100_0000_0000_0000, 7);
  }

  predicate AllBytes(bytes: seq<Byte>, value: Byte) {
    bytes == seq(STATE_BYTES, _ => value)
  }

  /** The two ends of the range, as bytes and carry. */
  lemma Ends(bytes: seq<Byte>, carry: Word)
    requires |bytes| == STATE_BYTES && carry <= CARRY_MAX
    ensures Number(bytes, carry) == 0 <==> AllBytes(bytes, 0) && carry == 0
    ensures Number(bytes, carry) == MODULUS <==> AllBytes(bytes, 255) && carry == CARRY_MAX
  {
    EndValues();
    var zeros, ones := seq(STATE_BYTES, _ => 0 as Byte), seq(STATE_BYTES, _ => 255 as Byte);
    if Number(bytes, carry) == 0 {
      NumberIsFaithful(bytes, carry, zeros, 0);
    }
    if Number(bytes, carry) == MODULUS {
      NumberIsFaithful(bytes, carry, ones, CARRY_MAX);
    }
  }

  lemma EndValues()
    ensures Number(seq(STATE_BYTES, _ => 0 as Byte), 0) == 0
    ensures Number(seq(STATE_BYTES, _ => 255 as Byte), CARRY_MAX) == MODULUS
  {
    LeOfSame(0, 7);
    LeOfSame(255, 7);
    assert Pow(256, 7) == 0x100_0000_0000_0000;
  }

  /** A number with k equal digits v: 255 times it is v times 256^k - 1. */
  lemma {:induction false} LeOfSame(v: Byte, k: nat)
    ensures 255 * Le(seq(k, _ => v)) == v * (Pow(256, k) - 1)
  {
    if k > 0 {
      LeOfSame(v, k - 1);
      assert seq(k, _ => v)[1..] == seq(k - 1, _ => v);
      var p := Pow(256, k - 1);
      assert v * (256 * p - 1) == 256 * (v * (p - 1)) + 255 * v;
    }
  }

  /** A call leaves the state alone exactly if all is zero, or all bytes are 255 and the carry is at its bound. */
  lemma FixedPoints(bytes: seq<Byte>, carry: Word)
    requires |bytes| == STATE_BYTES && carry <= CARRY_MAX
    ensures Next(Number(bytes, carry)) == Number(bytes, carry) <==>
      || (AllBytes(bytes, 0) && carry == 0)
      || (AllBytes(bytes, 255) && carry == CARRY_MAX)
  {
    hide Next, Number;
    NumberInRange(bytes, carry);
    FixedNumbers(Number(bytes, carry));
    Ends(bytes, carry);
  }

  /** From some contents of the array eight zero bytes are returned in a row, so the bound of eight is exact. */
  lemma EightZerosHappen() returns (bytes: seq<Byte>, carry: Word)
    ensures |bytes| == STATE_BYTES && carry <= CARRY_MAX && 0 < Number(bytes, carry) < MODULUS
    ensures forall j :: 0 <= j < 8 ==> Returned(Number(bytes, carry), j) == 0
  {
    hide Next, Newest, Number;
    var n := EightZerosFrom();
    bytes, carry := NumberIsOnto(n);
  }

  /** What a call divides by 256: MULT times the consumed byte, plus the carry. */
  function Product(x: Byte, c: Word): nat {
    0x13B * x + c
  }

  /** The two-part 16-bit multiplication is the multiplication by MULT, and nothing overflows. */
  lemma SplitMultiplication(x: Byte, c: Word)
    requires c <= CARRY_MAX
    ensures (x * MULT_LO + c) % 0x1_0000 == x * MULT_LO + c < 0x1_0000
    ensures ((x * MULT_LO + c) / 256 + x) % 0x1_0000 == (x * MULT_LO + c) / 256 + x == Product(x, c) / 256 <= CARRY_MAX
    ensures (x * MULT_LO + c) % 256 == Product(x, c) % 256
  {
    assert Product(x, c) == 256 * x + (59 * x + c);
  }

  /** Dropping the oldest byte and appending the new one, with the new carry, is a call. */
  lemma ShiftIsStep(bytes: seq<Byte>, c: Word)
    requires |bytes| == STATE_BYTES && c <= CARRY_MAX
    ensures var product := Product(bytes[0], c);
      && Next(Number(bytes, c)) == Number(bytes[1..] + [product % 256], product / 256)
      && Newest(Next(Number(bytes, c))) == product % 256
  {
    var rest, x, product := bytes[1..], bytes[0], Product(bytes[0], c);
    LeAppend(rest, product % 256);
    LeBound(rest);
    assert Pow(256, 6) == B6;
    StepOnParts(x, Le(rest), c);
  }

  lemma StepOnParts(x: Byte, low: nat, c: Word)
    requires low < B6
    ensures var n, product := x + 256 * low + c * 0x100_0000_0000_0000, Product(x, c);
      && Next(n) == low + 0x1_0000_0000_0000 * (product % 256) + (product / 256) * 0x100_0000_0000_0000
      && Newest(Next(n)) == product % 256
  {
    var n, product := x + 256 * low + c * 0x100_0000_0000_0000, Product(x, c);
    DivModUnique(256, low + c * 0x1_0000_0000_0000, x);
    assert Next(n) == 0x1_0000_0000_0000 * product + low;
    DivModUnique(0x1_0000_0000_0000, product, low);
  }

  /** The seven cells read from index i on, that is oldest byte first. */
  function OldestFirst(cells: seq<Byte>, i: nat): (bytes: seq<Byte>)
    requires i < |cells| == STATE_BYTES
    ensures |bytes| == STATE_BYTES && bytes[0] == cells[i]
  {
    cells[i..] + cells[..i]
  }

  /** Overwriting the cell at i and moving i on drops the oldest byte and appends the new one. */
  lemma StoreIsStep(cells: seq<Byte>, i: nat, c: Word, y: Byte, carry: Word)
    requires i < |cells| == STATE_BYTES && c <= CARRY_MAX
    requires y == Product(cells[i], c) % 256 && carry == Product(cells[i], c) / 256
    ensures var next := if i + 1 >= STATE_BYTES then 0 else i + 1;
      Number(OldestFirst(cells[i := y], next), carry) == Next(Number(OldestFirst(cells, i), c))
    ensures Newest(Next(Number(OldestFirst(cells, i), c))) == y
  {
    var next := if i + 1 >= STATE_BYTES then 0 else i + 1;
    hide Next, Newest, Number, Product;
    ShiftIsStep(OldestFirst(cells, i), c);
    assert OldestFirst(cells[i := y], next) == OldestFirst(cells, i)[1..] + [y];
  }

  /** The static variables of the generator, updated in place. */
  class Generator {
    var state: array<Byte>
    var c: Word
    var i: nat

    ghost predicate Valid()
      reads this, state
    {
      state.Length == STATE_BYTES && i < STATE_BYTES && c <= CARRY_MAX
    }

    /** The bytes, oldest first. */
    ghost function Contents(): seq<Byte>
      requires Valid()
      reads this, state
    {
      OldestFirst(state[..], i)
    }

    ghost function Value(): (n: nat)
      requires Valid()
      reads this, state
      ensures n <= MODULUS
    {
      NumberInRange(Contents(), c);
      Number(Contents(), c)
    }

    constructor ()
      ensures Valid() && fresh(state)
      ensures Value() == SEED
    {
      state := new Byte[STATE_BYTES] [0x87, 0xdd, 0xdc, 0x10, 0x35, 0xbc, 0x5c];
      c := 0x42;
      i := 0;
      new;
      assert Contents() == SeedBytes();
      SeedValue();
    }

    method Rand8() returns (x: Byte)
      requires Valid()
      modifies this, state
      ensures Valid() && state == old(state)
      ensures Value() == Next(old(Value()))
      ensures x == Newest(Value()) && i == (old(i) + 1) % STATE_BYTES
    {
      hide Next, Newest, Number, Product, OldestFirst;
      ghost var cells, was, carry := state[..], i, c;
      x := state[i];
      SplitMultiplication(x, carry);
      StoreIsStep(cells, was, carry, Product(x, carry) % 256, Product(x, carry) / 256);
      var t: Word := (x * MULT_LO + c) % 0x1_0000;
      c := t / 256;
      if MULT_HI != 0 {
        c := (c + x) % 0x1_0000;
      }
      x := t % 256;
      state[i] := x;
      assert state[..] == cells[was := x];
      i := i + 1;
      if i >= state.Length {
        i := 0;
      }
    }
  }

  function SeedBytes(): seq<Byte> {
    [0x87, 0xdd, 0xdc, 0x10, 0x35, 0xbc, 0x5c]
  }

  const SEED: nat := 4781903840462822791

  lemma SeedValue()
    ensures Number(SeedBytes(), 0x42) == SEED
  {
  }

  lemma FirstDraw()
    ensures Next(SEED) == 11988402696497454301 && Newest(Next(SEED)) == 95
  {
    DivModUnique(256, 18679311876807901, 0x87);
    DivModUnique(0x1_0000_0000_0000, 42591, 101963413904605);
    DivModUnique(256, 166, 95);
  }

  /** The shipped seed is an ordinary state, so no run from it ever reaches a fixed point. */
  lemma SeedNeverDegenerates(k: nat)
    ensures 0 < Nth(SEED, k) < MODULUS
    ensures Next(Nth(SEED, k)) != Nth(SEED, k)
  {
    RunStays(SEED, k);
    FixedNumbers(Nth(SEED, k));
  }
}
