/**
 The backoff delay of crates/mqtt5-protocol/src/connection.rs, computed with saturating 64-bit
 arithmetic and an early exit. A duration is a number of nanoseconds.
 */
module Backoff {
  import opened Options
  import opened Bytes

  const U32_MAX: nat := 0xFFFF_FFFF
  const U64_MAX: nat := 0xFFFF_FFFF_FFFF_FFFF
  const NANOS_PER_MILLI: nat := 1_000_000

  type Duration = nat

  datatype ReconnectConfig = ReconnectConfig(
    enabled: bool,
    initialDelay: Duration,
    maxDelay: Duration,
    factorTenths: u32,
    maxAttempts: Option<u32>)

  function Saturate(x: nat): nat {
    if x <= U64_MAX then x else U64_MAX
  }

  function AsMillis(d: Duration): nat {
    Saturate(d / NANOS_PER_MILLI)
  }

  function FromMillis(ms: nat): Duration {
    ms * NANOS_PER_MILLI
  }

  function InitialMs(c: ReconnectConfig): nat {
    AsMillis(c.initialDelay)
  }

  function MaxMs(c: ReconnectConfig): nat {
    AsMillis(c.maxDelay)
  }

  function Min(a: nat, b: nat): nat {
    if a <= b then a else b
  }

  // ---- the computation of the source ----

  // The delay in tenths of a millisecond after n turns of the loop, or None once the loop has
  // returned the maximum.
  function Turns(c: ReconnectConfig, n: nat): Option<nat> {
    if n == 0 then Some(Saturate(InitialMs(c) * 10))
    else
      var d :- Turns(c, n - 1);
      var d' := Saturate(d * c.factorTenths) / 10;
      if d' / 10 >= MaxMs(c) then None else Some(d')
  }

  function DelayOf(c: ReconnectConfig, attempt: nat): Duration {
    if attempt == 0 then c.initialDelay
    else match Turns(c, attempt)
         case None => c.maxDelay
         case Some(d) => FromMillis(Min(d / 10, MaxMs(c)))
  }

  method CalculateDelay(c: ReconnectConfig, attempt: nat) returns (delay: Duration)
    ensures delay == DelayOf(c, attempt)
  {
    hide AsMillis, Saturate;
    if attempt == 0 {
      return c.initialDelay;
    }
    var initialMs, maxMs := AsMillis(c.initialDelay), AsMillis(c.maxDelay);
    var delayTenths := Saturate(initialMs * 10);
    var i := 0;
    while i < attempt
      invariant 0 <= i <= attempt
      invariant Turns(c, i) == Some(delayTenths)
    {
      delayTenths := Saturate(delayTenths * c.factorTenths) / 10;
      if delayTenths / 10 >= maxMs {
        StaysAtMax(c, i + 1, attempt);
        return c.maxDelay;
      }
      i := i + 1;
    }
    return FromMillis(Min(delayTenths / 10, maxMs));
  }

  lemma {:induction false} StaysAtMax(c: ReconnectConfig, i: nat, n: nat)
    requires i <= n && Turns(c, i).None?
    ensures Turns(c, n).None?
    decreases n - i
  {
    if i < n {
      StaysAtMax(c, i + 1, n);
    }
  }

  // ---- the recurrence it stands for ----

  // Multiplying by the factor and rounding down, without limits.
  function Grown(c: ReconnectConfig, n: nat): nat {
    if n == 0 then InitialMs(c) * 10 else Grown(c, n - 1) * c.factorTenths / 10
  }

  // That delay, capped.
  function CappedDelay(c: ReconnectConfig, attempt: nat): Duration {
    if attempt == 0 then c.initialDelay
    else if Grown(c, attempt) / 10 >= MaxMs(c) then c.maxDelay
    else FromMillis(Grown(c, attempt) / 10)
  }

  lemma TimesFactor(x: nat, f: nat)
    requires f >= 10
    ensures x <= x * f / 10
    ensures f >= 11 ==> x + x / 10 <= x * f / 10
  {
    assert x * f >= x * 10;
    if f >= 11 {
      assert x * f >= x * 11;
    }
  }

  lemma TimesMonotone(x: nat, y: nat, f: nat)
    requires x <= y
    ensures x * f / 10 <= y * f / 10
  {
    assert x * f <= y * f;
  }

  lemma {:induction false} GrownMonotone(c: ReconnectConfig, i: nat, n: nat)
    requires c.factorTenths >= 10 && i <= n
    ensures Grown(c, i) <= Grown(c, n)
    decreases n - i
  {
    if i < n {
      TimesFactor(Grown(c, n - 1), c.factorTenths);
      GrownMonotone(c, i, n - 1);
    }
  }

  function Pow2(k: nat): nat {
    if k == 0 then 1 else 2 * Pow2(k - 1)
  }

  // A factor above 1 adds at least a tenth of the starting value with every turn.
  lemma {:induction false} GrowsByTenths(c: ReconnectConfig, n: nat, k: nat)
    requires c.factorTenths >= 11
    ensures Grown(c, n + k) >= Grown(c, n) + k * (Grown(c, n) / 10)
    decreases k
  {
    hide InitialMs;
    if k > 0 {
      GrowsByTenths(c, n, k - 1);
      var x, y := Grown(c, n), Grown(c, n + (k - 1));
      assert Grown(c, n + k) == y * c.factorTenths / 10;
      AddsTenth(x, y, k, c.factorTenths);
    }
  }

  lemma AddsTenth(x: nat, y: nat, k: nat, f: nat)
    requires f >= 11 && k > 0 && y >= x + (k - 1) * (x / 10)
    ensures y * f / 10 >= x + k * (x / 10)
  {
    TimesFactor(y, f);
    var t := x / 10;
    assert (k - 1) * t >= 0;
    assert k * t == (k - 1) * t + t;
  }

  // So the value doubles, at the least, every 20 turns.
  lemma {:induction false} GrownDoubles(c: ReconnectConfig, k: nat)
    requires c.factorTenths >= 11 && InitialMs(c) >= 1
    ensures Grown(c, 20 * k) >= 10 * Pow2(k)
  {
    if k > 0 {
      GrownDoubles(c, k - 1);
      GrowsByTenths(c, 20 * (k - 1), 20);
      PowPositive(k - 1);
    }
  }

  lemma {:induction false} PowPositive(k: nat)
    ensures Pow2(k) >= 1
  {
    if k > 0 {
      PowPositive(k - 1);
    }
  }

  lemma {:induction false} PowSum(a: nat, b: nat)
    ensures Pow2(a + b) == Pow2(a) * Pow2(b)
  {
    if a > 0 {
      PowSum(a - 1, b);
      TwiceProduct(Pow2(a - 1), Pow2(b));
    }
  }

  lemma TwiceProduct(x: nat, y: nat)
    ensures (2 * x) * y == 2 * (x * y)
  {
  }

  lemma WordSizes()
    ensures Pow2(64) == U64_MAX + 1 && Pow2(58) == (U64_MAX + 1) / 64
  {
    hide Pow2;
    SmallPowers();
    PowSum(8, 8);
    PowSum(16, 16);
    PowSum(32, 32);
    PowSum(6, 58);
  }

  lemma SmallPowers()
    ensures Pow2(4) == 16 && Pow2(6) == 64 && Pow2(8) == 256
  {
  }

  // The maximum is small enough for a saturated product to reach it.
  predicate CapReachable(c: ReconnectConfig) {
    MaxMs(c) <= U64_MAX / 100
  }

  // As long as the loop runs on, nothing has saturated; once it has returned, the recurrence
  // is past the maximum too.
  lemma {:induction false} TurnsAreGrown(c: ReconnectConfig, n: nat)
    requires c.factorTenths >= 10 && CapReachable(c) && n >= 1
    ensures Turns(c, n) == if Grown(c, n) / 10 >= MaxMs(c) then None else Some(Grown(c, n))
  {
    var f := c.factorTenths;
    if n == 1 {
      var x, d := InitialMs(c) * 10, Saturate(InitialMs(c) * 10);
      TimesMonotone(d, x, f);
      TimesFactor(d, f);
      if x > U64_MAX || d * f > U64_MAX {
        assert Saturate(d * f) / 10 / 10 >= MaxMs(c);
      }
    } else {
      TurnsAreGrown(c, n - 1);
      GrownMonotone(c, n - 1, n);
      if Turns(c, n - 1).Some? {
        var d := Grown(c, n - 1);
        if d * f > U64_MAX {
          assert Saturate(d * f) / 10 / 10 >= MaxMs(c);
        }
      }
    }
  }

  // With a factor of at least 1 and a reachable cap, the computed delay is the recurrence
  // capped at the maximum.
  lemma DelayIsCapped(c: ReconnectConfig, attempt: nat)
    requires c.factorTenths >= 10 && CapReachable(c)
    ensures DelayOf(c, attempt) == CappedDelay(c, attempt)
  {
    if attempt > 0 {
      TurnsAreGrown(c, attempt);
    }
  }

  lemma {:induction false} TurnsBounded(c: ReconnectConfig, n: nat)
    requires n >= 1 && Turns(c, n).Some?
    ensures Turns(c, n).value <= U64_MAX / 10
  {
  }

  lemma {:induction false} NeverCapped(c: ReconnectConfig, n: nat)
    requires !CapReachable(c)
    ensures Turns(c, n).Some?
  {
    if n > 0 {
      NeverCapped(c, n - 1);
    }
  }

  // A maximum beyond that is never reached on any retry, whatever the factor.
  lemma StuckBelowMax(c: ReconnectConfig, n: nat)
    requires !CapReachable(c) && n >= 1
    ensures DelayOf(c, n) <= FromMillis(U64_MAX / 100) < c.maxDelay
  {
    NeverCapped(c, n);
    TurnsBounded(c, n);
    var d := Turns(c, n).value;
    assert d / 10 <= U64_MAX / 100;
    assert c.maxDelay / NANOS_PER_MILLI >= MaxMs(c);
  }

  // For a factor of at least 1: the maximum can be reached, or there is nothing to multiply, or
  // the factor is 1 and the product itself does not saturate.
  predicate Unsaturated(c: ReconnectConfig) {
    || CapReachable(c)
    || InitialMs(c) == 0
    || (c.factorTenths == 10 && InitialMs(c) <= U64_MAX / 100)
  }

  lemma UnsaturatedIsCapped(c: ReconnectConfig, attempt: nat)
    requires c.factorTenths >= 10 && Unsaturated(c)
    ensures DelayOf(c, attempt) == CappedDelay(c, attempt)
  {
    if CapReachable(c) {
      DelayIsCapped(c, attempt);
    } else if attempt > 0 {
      ConstantTurns(c, attempt);
    }
  }

  lemma SaturatedDiffers(c: ReconnectConfig) returns (attempt: nat)
    requires c.factorTenths >= 10 && !Unsaturated(c)
    ensures attempt <= U32_MAX && DelayOf(c, attempt) != CappedDelay(c, attempt)
  {
    if c.factorTenths == 10 {
      DiffersAtOne(c);
      attempt := 1;
    } else {
      StuckBelowMax(c, 1280);
      PastEveryMax(c);
      attempt := 1280;
    }
  }

  // Neither growing nor saturating.
  lemma {:induction false} ConstantTurns(c: ReconnectConfig, n: nat)
    requires c.factorTenths >= 10 && !CapReachable(c) && Unsaturated(c)
    ensures Turns(c, n) == Some(InitialMs(c) * 10) && Grown(c, n) == InitialMs(c) * 10
  {
    if n > 0 {
      ConstantTurns(c, n - 1);
    }
  }

  lemma DiffersAtOne(c: ReconnectConfig)
    requires c.factorTenths == 10 && !Unsaturated(c)
    ensures DelayOf(c, 1) != CappedDelay(c, 1)
  {
    StuckBelowMax(c, 1);
    assert Grown(c, 1) == Grown(c, 0) * 10 / 10;
    assert Grown(c, 1) / 10 == InitialMs(c);
  }

  // By attempt 1280 a growing recurrence is past anything that 64 bits hold.
  lemma PastEveryMax(c: ReconnectConfig)
    requires c.factorTenths >= 11 && InitialMs(c) >= 1
    ensures CappedDelay(c, 1280) == c.maxDelay
  {
    GrownDoubles(c, 64);
    WordSizes();
  }

  // For instance, 1 s doubled on every retry up to a maximum of 2 * 10^17 ms.
  lemma SticksBelowMax()
    ensures
      var c := ReconnectConfig(true, FromMillis(1000), FromMillis(200_000_000_000_000_000), 20, None);
      DelayOf(c, 1280) < c.maxDelay && CappedDelay(c, 1280) == c.maxDelay
  {
    var c := ReconnectConfig(true, FromMillis(1000), FromMillis(200_000_000_000_000_000), 20, None);
    assert InitialMs(c) == 1000 && MaxMs(c) == 200_000_000_000_000_000;
    StuckBelowMax(c, 1280);
    PastEveryMax(c);
  }

  // ---- the first retry ----

  // The first retry, in whole milliseconds: the product rounded down, or what is left of a
  // saturated one.
  function FirstRetryMs(c: ReconnectConfig): nat {
    Min(InitialMs(c) * c.factorTenths / 10, U64_MAX / 100)
  }

  // The two saturations of the first turn are one.
  lemma FirstTurn(i: nat, f: nat)
    ensures Saturate(Saturate(i * 10) * f) / 10 == Min(i * f, U64_MAX / 10)
  {
    var x := i * f;
    assert i * 10 * f == x * 10;
    if i * 10 > U64_MAX && f >= 1 {
      assert U64_MAX * f >= U64_MAX;
      assert x >= i;
    }
  }

  lemma FirstTurnOf(c: ReconnectConfig)
    ensures
      Turns(c, 1) ==
      if FirstRetryMs(c) >= MaxMs(c) then None else Some(Min(InitialMs(c) * c.factorTenths, U64_MAX / 10))
  {
    hide InitialMs, MaxMs, Saturate;
    FirstTurn(InitialMs(c), c.factorTenths);
    assert Turns(c, 0) == Some(Saturate(InitialMs(c) * 10));
  }

  lemma FirstStep(c: ReconnectConfig)
    ensures DelayOf(c, 1) == if FirstRetryMs(c) >= MaxMs(c) then c.maxDelay else FromMillis(FirstRetryMs(c))
  {
    hide InitialMs, MaxMs, Saturate, Turns;
    FirstTurnOf(c);
  }

  // ---- factors below 1: the loop leaves on the first turn or never ----

  lemma LeavesAtOnce(c: ReconnectConfig, n: nat)
    requires FirstRetryMs(c) >= MaxMs(c) && n >= 1
    ensures DelayOf(c, n) == c.maxDelay
  {
    hide Turns, FirstRetryMs;
    FirstTurnOf(c);
    StaysAtMax(c, 1, n);
  }

  // x multiplied n times by the factor and rounded down.
  function Iterate(x: nat, f: nat, n: nat): nat {
    if n == 0 then x else Iterate(x, f, n - 1) * f / 10
  }

  lemma {:induction false} IterateShrinks(x: nat, f: nat, n: nat)
    requires f < 10
    ensures Iterate(x, f, n) <= x
  {
    if n > 0 {
      IterateShrinks(x, f, n - 1);
      BelowInitial(Iterate(x, f, n - 1), f);
    }
  }

  lemma {:induction false} GrownIterates(c: ReconnectConfig, n: nat)
    requires n >= 1
    ensures Grown(c, n) == Iterate(InitialMs(c) * c.factorTenths, c.factorTenths, n - 1)
  {
    hide InitialMs;
    var i, f := InitialMs(c), c.factorTenths;
    if n == 1 {
      assert i * 10 * f == (i * f) * 10;
    } else {
      GrownIterates(c, n - 1);
    }
  }

  lemma {:induction false} TurnsIterate(c: ReconnectConfig, n: nat)
    requires c.factorTenths < 10 && FirstRetryMs(c) < MaxMs(c) && n >= 1
    ensures Turns(c, n) == Some(Iterate(Min(InitialMs(c) * c.factorTenths, U64_MAX / 10), c.factorTenths, n - 1))
  {
    hide InitialMs, MaxMs, Saturate, Min;
    FirstTurnOf(c);
    if n == 1 {
      assert Iterate(Min(InitialMs(c) * c.factorTenths, U64_MAX / 10), c.factorTenths, 0) ==
             Min(InitialMs(c) * c.factorTenths, U64_MAX / 10);
    } else {
      var x, f := Min(InitialMs(c) * c.factorTenths, U64_MAX / 10), c.factorTenths;
      TurnsIterate(c, n - 1);
      IterateShrinks(x, f, n - 2);
      IterateShrinks(x, f, n - 1);
      AtMost(InitialMs(c) * f, U64_MAX / 10);
      NoSaturation(Iterate(x, f, n - 2), f);
      TenthsOf(InitialMs(c) * f);
    }
  }

  lemma NoSaturation(d: nat, f: nat)
    requires d <= U64_MAX / 10 && f < 10
    ensures Saturate(d * f) == d * f
  {
    assert d * f <= d * 9;
  }

  lemma AtMost(a: nat, b: nat)
    ensures Min(a, b) <= b
  {
  }

  lemma TenthsOf(x: nat)
    ensures Min(x, U64_MAX / 10) / 10 == Min(x / 10, U64_MAX / 100)
  {
  }

  lemma DelayIterates(c: ReconnectConfig, n: nat)
    requires c.factorTenths < 10 && FirstRetryMs(c) < MaxMs(c) && n >= 1
    ensures DelayOf(c, n) ==
            FromMillis(Iterate(Min(InitialMs(c) * c.factorTenths, U64_MAX / 10), c.factorTenths, n - 1) / 10)
  {
    hide InitialMs, MaxMs, Turns;
    var x, f := Min(InitialMs(c) * c.factorTenths, U64_MAX / 10), c.factorTenths;
    TurnsIterate(c, n);
    IterateShrinks(x, f, n - 1);
    assert x / 10 == FirstRetryMs(c);
  }

  lemma CappedIterates(c: ReconnectConfig, n: nat)
    requires c.factorTenths < 10 && InitialMs(c) * c.factorTenths / 10 < MaxMs(c) && n >= 1
    ensures CappedDelay(c, n) == FromMillis(Iterate(InitialMs(c) * c.factorTenths, c.factorTenths, n - 1) / 10)
  {
    hide InitialMs, MaxMs, Grown;
    GrownIterates(c, n);
    IterateShrinks(InitialMs(c) * c.factorTenths, c.factorTenths, n - 1);
  }

  lemma StaysAtZero(c: ReconnectConfig, n: nat)
    requires c.factorTenths < 10 && InitialMs(c) == 0 < MaxMs(c) && n >= 1
    ensures DelayOf(c, n) == 0
  {
    DelayIterates(c, n);
    IterateShrinks(0, c.factorTenths, n - 1);
  }

  // ---- where saturating the first product makes a difference ----

  // The largest number of tenths that the first turn leaves.
  const TOP: nat := U64_MAX / 10

  // Both iterations show the same whole milliseconds for ever.
  ghost predicate ShowSame(x: nat, y: nat, f: nat) {
    forall n: nat :: Iterate(x, f, n) / 10 == Iterate(y, f, n) / 10
  }

  // They do so until they meet, within k steps.
  predicate Meet(x: nat, y: nat, f: nat, k: nat)
    decreases k
  {
    x == y || (k > 0 && x / 10 == y / 10 && Meet(x * f / 10, y * f / 10, f, k - 1))
  }

  lemma {:induction false} IterateFirst(x: nat, f: nat, n: nat)
    ensures Iterate(x, f, n + 1) == Iterate(x * f / 10, f, n)
  {
    if n > 0 {
      IterateFirst(x, f, n - 1);
    }
  }

  lemma {:induction false} MeetShowSame(x: nat, y: nat, f: nat, k: nat)
    requires Meet(x, y, f, k)
    ensures ShowSame(x, y, f)
    decreases k
  {
    if x != y {
      MeetShowSame(x * f / 10, y * f / 10, f, k - 1);
      forall n: nat ensures Iterate(x, f, n) / 10 == Iterate(y, f, n) / 10 {
        if n > 0 {
          IterateFirst(x, f, n - 1);
          IterateFirst(y, f, n - 1);
        }
      }
    }
  }

  // The products up to 8 above TOP: the ones that still show the same on the first retry. Those
  // of factor 0.3, 0.7, 0.8 and 0.9 that end in 9, 7, 8 and 9 come apart later.
  predicate ComesApart(x: nat, f: nat) {
    || (f == 3 && x == TOP + 8)
    || (f == 7 && x == TOP + 6)
    || (f == 8 && x == TOP + 7)
    || (f == 9 && x == TOP + 8)
  }

  lemma MeetHere(x: nat, f: nat, k: nat)
    ensures Meet(x, x, f, k)
  {
  }

  lemma MeetAfter(x: nat, y: nat, f: nat, k: nat, x': nat, y': nat)
    requires k > 0 && x / 10 == y / 10 && x' == x * f / 10 && y' == y * f / 10 && Meet(x', y', f, k - 1)
    ensures Meet(x, y, f, k)
  {
  }

  lemma MeetAbove(i: nat, f: nat)
    requires f < 10 && TOP < i * f <= TOP + 8 && !ComesApart(i * f, f)
    ensures Meet(i * f, TOP, f, 7)
  {
    hide Meet;
    match f
    case 1 => MeetOne(i);
    case 2 => MeetTwo(i * 2);
    case 3 => MeetThree(i * 3);
    case 4 => MeetFour(i * 4);
    case 5 => MeetFive();
    case 6 => MeetSix();
    case _ => OnlyApart(i, f);
  }

  // The only multiples of 7, 8 and 9 in that range are the ones that come apart.
  lemma OnlyApart(i: nat, f: nat)
    requires TOP < i * f <= TOP + 8 && (f == 7 || f == 8 || f == 9)
    ensures ComesApart(i * f, f)
  {
    match f
    case 7 => assert i * 7 == TOP + 6;
    case 8 => assert i * 8 == TOP + 7;
    case _ => assert i * 9 == TOP + 8;
  }

  lemma MeetOne(x: nat)
    requires TOP < x <= TOP + 8
    ensures Meet(x, TOP, 1, 7)
  {
    hide Meet;
    MeetHere(TOP / 10, 1, 6);
    MeetAfter(x, TOP, 1, 7, TOP / 10, TOP / 10);
  }

  lemma MeetTwo(x: nat)
    requires x == TOP + 1 || x == TOP + 3 || x == TOP + 5 || x == TOP + 7
    ensures Meet(x, TOP, 2, 7)
  {
    hide Meet;
    if x == TOP + 1 {
      MeetHere(368_934_881_474_191_032, 2, 6);
      MeetAfter(1_844_674_407_370_955_162, 1_844_674_407_370_955_161, 2, 7, 368_934_881_474_191_032, 368_934_881_474_191_032);
    } else if x == TOP + 3 {
      MeetHere(368_934_881_474_191_032, 2, 6);
      MeetAfter(1_844_674_407_370_955_164, 1_844_674_407_370_955_161, 2, 7, 368_934_881_474_191_032, 368_934_881_474_191_032);
    } else if x == TOP + 5 {
      MeetHere(73_786_976_294_838_206, 2, 5);
      MeetAfter(368_934_881_474_191_033, 368_934_881_474_191_032, 2, 6, 73_786_976_294_838_206, 73_786_976_294_838_206);
      MeetAfter(1_844_674_407_370_955_166, 1_844_674_407_370_955_161, 2, 7, 368_934_881_474_191_033, 368_934_881_474_191_032);
    } else {
      MeetHere(73_786_976_294_838_206, 2, 5);
      MeetAfter(368_934_881_474_191_033, 368_934_881_474_191_032, 2, 6, 73_786_976_294_838_206, 73_786_976_294_838_206);
      MeetAfter(1_844_674_407_370_955_168, 1_844_674_407_370_955_161, 2, 7, 368_934_881_474_191_033, 368_934_881_474_191_032);
    }
  }

  lemma MeetThree(x: nat)
    requires x == TOP + 2 || x == TOP + 5
    ensures Meet(x, TOP, 3, 7)
  {
    hide Meet;
    if x == TOP + 2 {
      MeetHere(553_402_322_211_286_548, 3, 6);
      MeetAfter(1_844_674_407_370_955_163, 1_844_674_407_370_955_161, 3, 7, 553_402_322_211_286_548, 553_402_322_211_286_548);
    } else {
      MeetHere(166_020_696_663_385_964, 3, 5);
      MeetAfter(553_402_322_211_286_549, 553_402_322_211_286_548, 3, 6, 166_020_696_663_385_964, 166_020_696_663_385_964);
      MeetAfter(1_844_674_407_370_955_166, 1_844_674_407_370_955_161, 3, 7, 553_402_322_211_286_549, 553_402_322_211_286_548);
    }
  }

  lemma MeetFour(x: nat)
    requires x == TOP + 3 || x == TOP + 7
    ensures Meet(x, TOP, 4, 7)
  {
    hide Meet;
    if x == TOP + 3 {
      MeetHere(118_059_162_071_741_130, 4, 4);
      MeetAfter(295_147_905_179_352_826, 295_147_905_179_352_825, 4, 5, 118_059_162_071_741_130, 118_059_162_071_741_130);
      MeetAfter(737_869_762_948_382_065, 737_869_762_948_382_064, 4, 6, 295_147_905_179_352_826, 295_147_905_179_352_825);
      MeetAfter(1_844_674_407_370_955_164, 1_844_674_407_370_955_161, 4, 7, 737_869_762_948_382_065, 737_869_762_948_382_064);
    } else {
      MeetHere(118_059_162_071_741_130, 4, 4);
      MeetAfter(295_147_905_179_352_826, 295_147_905_179_352_825, 4, 5, 118_059_162_071_741_130, 118_059_162_071_741_130);
      MeetAfter(737_869_762_948_382_067, 737_869_762_948_382_064, 4, 6, 295_147_905_179_352_826, 295_147_905_179_352_825);
      MeetAfter(1_844_674_407_370_955_168, 1_844_674_407_370_955_161, 4, 7, 737_869_762_948_382_067, 737_869_762_948_382_064);
    }
  }

  lemma MeetFive()
    ensures Meet(TOP + 4, TOP, 5, 7)
  {
    hide Meet;
    MeetHere(230_584_300_921_369_395, 5, 4);
    MeetAfter(461_168_601_842_738_791, 461_168_601_842_738_790, 5, 5, 230_584_300_921_369_395, 230_584_300_921_369_395);
    MeetAfter(922_337_203_685_477_582, 922_337_203_685_477_580, 5, 6, 461_168_601_842_738_791, 461_168_601_842_738_790);
    MeetAfter(1_844_674_407_370_955_165, 1_844_674_407_370_955_161, 5, 7, 922_337_203_685_477_582, 922_337_203_685_477_580);
  }

  lemma MeetSix()
    ensures Meet(TOP + 5, TOP, 6, 7)
  {
    hide Meet;
    MeetHere(86_065_129_150_299_283, 6, 1);
    MeetAfter(143_441_881_917_165_473, 143_441_881_917_165_472, 6, 2, 86_065_129_150_299_283, 86_065_129_150_299_283);
    MeetAfter(239_069_803_195_275_789, 239_069_803_195_275_788, 6, 3, 143_441_881_917_165_473, 143_441_881_917_165_472);
    MeetAfter(398_449_671_992_126_315, 398_449_671_992_126_314, 6, 4, 239_069_803_195_275_789, 239_069_803_195_275_788);
    MeetAfter(664_082_786_653_543_859, 664_082_786_653_543_857, 6, 5, 398_449_671_992_126_315, 398_449_671_992_126_314);
    MeetAfter(1_106_804_644_422_573_099, 1_106_804_644_422_573_096, 6, 6, 664_082_786_653_543_859, 664_082_786_653_543_857);
    MeetAfter(1_844_674_407_370_955_166, 1_844_674_407_370_955_161, 6, 7, 1_106_804_644_422_573_099, 1_106_804_644_422_573_096);
  }

  // And the four come apart by the third retry.
  lemma Apart(x: nat, f: nat) returns (n: nat)
    requires ComesApart(x, f)
    ensures n <= 2 && Iterate(x, f, n) / 10 != Iterate(TOP, f, n) / 10
  {
    hide Iterate;
    if f == 7 {
      n := 2;
      IterateTwice(x, 7, 1_291_272_085_159_668_616, 903_890_459_611_768_031);
      IterateTwice(TOP, 7, 1_291_272_085_159_668_612, 903_890_459_611_768_028);
    } else {
      n := 1;
      IterateOnce(x, f);
      IterateOnce(TOP, f);
    }
  }

  lemma IterateOnce(x: nat, f: nat)
    ensures Iterate(x, f, 1) == x * f / 10
  {
    assert Iterate(x, f, 0) == x;
  }

  lemma IterateTwice(x: nat, f: nat, x': nat, x'': nat)
    requires x' == x * f / 10 && x'' == x' * f / 10
    ensures Iterate(x, f, 2) == x''
  {
    IterateOnce(x, f);
  }

  // ---- a factor below 1 and the recurrence ----

  // There is no maximum to speak of; or the first product is below it, and either did not
  // saturate or came so close that rounding hides it.
  predicate Follows(c: ReconnectConfig) {
    var x := InitialMs(c) * c.factorTenths;
    MaxMs(c) == 0 || (x / 10 < MaxMs(c) && x / 10 <= U64_MAX / 100 && !ComesApart(x, c.factorTenths))
  }

  lemma FollowsIsCapped(c: ReconnectConfig, attempt: nat)
    requires c.factorTenths < 10 && Follows(c)
    ensures DelayOf(c, attempt) == CappedDelay(c, attempt)
  {
    hide InitialMs, Grown, Turns;
    if attempt > 0 {
      if MaxMs(c) == 0 {
        LeavesAtOnce(c, attempt);
      } else {
        var x := InitialMs(c) * c.factorTenths;
        DelayIterates(c, attempt);
        CappedIterates(c, attempt);
        if x > TOP {
          MeetAbove(InitialMs(c), c.factorTenths);
          MeetShowSame(x, TOP, c.factorTenths, 7);
          assert Iterate(x, c.factorTenths, attempt - 1) / 10 == Iterate(TOP, c.factorTenths, attempt - 1) / 10;
        }
      }
    }
  }

  lemma DiffersBelowOne(c: ReconnectConfig) returns (attempt: nat)
    requires c.factorTenths < 10 && !Follows(c)
    ensures attempt <= U32_MAX && DelayOf(c, attempt) != CappedDelay(c, attempt)
  {
    hide InitialMs, Grown, Turns;
    var x, f := InitialMs(c) * c.factorTenths, c.factorTenths;
    if FirstRetryMs(c) >= MaxMs(c) {
      attempt := 476;
      LeavesAtOnce(c, attempt);
      FallsToZero(c);
      MaxIsPositive(c);
    } else if x / 10 >= MaxMs(c) || x / 10 > U64_MAX / 100 {
      attempt := 1;
      FirstStep(c);
      GrownIterates(c, 1);
      WithinMax(c, FirstRetryMs(c) + 1);
    } else {
      var n := Apart(x, f);
      attempt := n + 1;
      DelayIterates(c, attempt);
      CappedIterates(c, attempt);
    }
  }

  lemma MaxIsPositive(c: ReconnectConfig)
    requires MaxMs(c) > 0
    ensures c.maxDelay > 0
  {
  }

  // A factor below 1 takes a tenth off with every turn, and so half in seven.
  lemma TakesTenth(y: nat, f: nat)
    requires f < 10
    ensures 10 * (y * f / 10) <= 9 * y
  {
    assert y * f <= y * 9;
  }

  lemma HalvesInSeven(c: ReconnectConfig, n: nat)
    requires c.factorTenths < 10
    ensures 2 * Grown(c, n + 7) <= Grown(c, n)
  {
    hide InitialMs;
    var f := c.factorTenths;
    TakesTenth(Grown(c, n), f);
    TakesTenth(Grown(c, n + 1), f);
    TakesTenth(Grown(c, n + 2), f);
    TakesTenth(Grown(c, n + 3), f);
    TakesTenth(Grown(c, n + 4), f);
    TakesTenth(Grown(c, n + 5), f);
    TakesTenth(Grown(c, n + 6), f);
  }

  lemma {:induction false} GrownHalves(c: ReconnectConfig, k: nat)
    requires c.factorTenths < 10
    ensures Grown(c, 7 * k) * Pow2(k) <= Grown(c, 0)
  {
    hide Grown;
    if k > 0 {
      GrownHalves(c, k - 1);
      HalvesInSeven(c, 7 * (k - 1));
      HalfProduct(Grown(c, 7 * k), Grown(c, 7 * (k - 1)), Pow2(k - 1));
    }
  }

  lemma HalfProduct(x: nat, y: nat, p: nat)
    requires 2 * x <= y
    ensures x * (2 * p) <= y * p
  {
    assert x * (2 * p) == (2 * x) * p;
    assert (2 * x) * p <= y * p;
  }

  lemma FallsToZero(c: ReconnectConfig)
    requires c.factorTenths < 10 && MaxMs(c) > 0
    ensures CappedDelay(c, 476) == 0
  {
    hide Pow2;
    GrownHalves(c, 68);
    WordSizes();
    SmallPowers();
    PowSum(4, 64);
    var g := Grown(c, 476);
    if g >= 1 {
      AtLeastOnce(g, Pow2(68));
    }
  }

  lemma AtLeastOnce(g: nat, p: nat)
    requires g >= 1
    ensures g * p >= p
  {
  }

  // ---- the exact condition, for every configuration ----

  predicate MatchesRecurrence(c: ReconnectConfig) {
    if c.factorTenths >= 10 then Unsaturated(c) else Follows(c)
  }

  // The attempts are those the source can be given: 32-bit numbers.
  lemma DelayIsCappedIff(c: ReconnectConfig)
    ensures (forall attempt: nat :: attempt <= U32_MAX ==> DelayOf(c, attempt) == CappedDelay(c, attempt))
       <==> MatchesRecurrence(c)
  {
    hide DelayOf, CappedDelay, Unsaturated, Follows;
    if MatchesRecurrence(c) {
      forall attempt: nat ensures DelayOf(c, attempt) == CappedDelay(c, attempt) {
        if c.factorTenths >= 10 {
          UnsaturatedIsCapped(c, attempt);
        } else {
          FollowsIsCapped(c, attempt);
        }
      }
    } else if c.factorTenths >= 10 {
      var attempt := SaturatedDiffers(c);
    } else {
      var attempt := DiffersBelowOne(c);
    }
  }

  // For instance, 10 s halved under a maximum of 5 s: every retry waits 5 s, where the
  // recurrence is at 2.5 s on the second.
  lemma SticksAtMax()
    ensures
      var c := ReconnectConfig(true, FromMillis(10_000), FromMillis(5_000), 5, None);
      DelayOf(c, 2) == FromMillis(5_000) && CappedDelay(c, 2) == FromMillis(2_500)
  {
    var c := ReconnectConfig(true, FromMillis(10_000), FromMillis(5_000), 5, None);
    assert InitialMs(c) == 10_000 && MaxMs(c) == 5_000;
    LeavesAtOnce(c, 2);
    assert Grown(c, 1) == 50_000;
  }

  // ---- monotonicity and the limit ----

  lemma TurnsMonotone(c: ReconnectConfig, n: nat)
    requires c.factorTenths >= 10 && n >= 1 && Turns(c, n + 1).Some?
    ensures Turns(c, n).Some? && Turns(c, n).value <= Turns(c, n + 1).value
  {
    var d := Turns(c, n).value;
    TurnsBounded(c, n);
    TimesFactor(d, c.factorTenths);
  }

  lemma WithinMax(c: ReconnectConfig, ms: nat)
    requires ms <= MaxMs(c)
    ensures FromMillis(ms) <= c.maxDelay
  {
    var m := c.maxDelay / NANOS_PER_MILLI;
    assert ms <= m;
    assert m * NANOS_PER_MILLI <= c.maxDelay;
    assert ms * NANOS_PER_MILLI <= m * NANOS_PER_MILLI;
  }

  lemma DelayStep(c: ReconnectConfig, n: nat)
    requires c.factorTenths >= 10 && n >= 1
    ensures DelayOf(c, n) <= DelayOf(c, n + 1)
  {
    if Turns(c, n + 1).Some? {
      TurnsMonotone(c, n);
      var d, d' := Turns(c, n).value, Turns(c, n + 1).value;
      assert Min(d / 10, MaxMs(c)) <= Min(d' / 10, MaxMs(c));
      assert FromMillis(Min(d / 10, MaxMs(c))) <= FromMillis(Min(d' / 10, MaxMs(c)));
    } else if Turns(c, n).Some? {
      WithinMax(c, Min(Turns(c, n).value / 10, MaxMs(c)));
    }
  }

  lemma {:induction false} DelayMonotoneFrom(c: ReconnectConfig, i: nat, n: nat)
    requires DelayOf(c, 0) <= DelayOf(c, 1) && 1 <= i <= n
    ensures DelayOf(c, i) <= DelayOf(c, n)
    decreases n - i
  {
    hide DelayOf;
    if i < n {
      DelayMonotoneFrom(c, i, n - 1);
      if c.factorTenths >= 10 {
        DelayStep(c, n - 1);
      } else {
        ConstantDelay(c, n - 1);
        ConstantDelay(c, n);
      }
    }
  }

  // With a factor below 1, a first retry no shorter than the initial delay is at the maximum,
  // or there is no delay at all; either way later ones are the same.
  lemma ConstantDelay(c: ReconnectConfig, n: nat)
    requires c.factorTenths < 10 && DelayOf(c, 0) <= DelayOf(c, 1) && n >= 1
    ensures DelayOf(c, n) == DelayOf(c, 1)
  {
    hide InitialMs;
    FirstStep(c);
    if FirstRetryMs(c) >= MaxMs(c) {
      LeavesAtOnce(c, n);
      LeavesAtOnce(c, 1);
    } else {
      InitialBelow(c, FirstRetryMs(c));
      BelowInitial(InitialMs(c), c.factorTenths);
      StaysAtZero(c, n);
      StaysAtZero(c, 1);
    }
  }

  lemma BelowInitial(i: nat, f: nat)
    requires f < 10
    ensures i * f / 10 <= i && (i * f / 10 == i ==> i == 0)
  {
    assert i * f <= i * 9;
  }

  // No attempt up to `last` has a shorter delay than an earlier one.
  ghost predicate Monotone(c: ReconnectConfig, last: nat) {
    forall i: nat, n: nat :: i <= n <= last ==> DelayOf(c, i) <= DelayOf(c, n)
  }

  // Only the first retry can come sooner than the attempt before it.
  lemma OnlyFirstStepMatters(c: ReconnectConfig, last: nat)
    requires last >= 1
    ensures Monotone(c, last) <==> DelayOf(c, 0) <= DelayOf(c, 1)
  {
    if DelayOf(c, 0) <= DelayOf(c, 1) {
      forall i: nat, n: nat | i <= n <= last ensures DelayOf(c, i) <= DelayOf(c, n) {
        if n >= 1 {
          DelayMonotoneFrom(c, if i == 0 then 1 else i, n);
        }
      }
    }
  }

  // The initial delay is at most the maximum, and the first retry reaches the maximum, or is
  // longer by a whole millisecond, or is as long and there was no fraction to lose.
  predicate KeepsInitialDelay(c: ReconnectConfig) {
    && c.initialDelay <= c.maxDelay
    && (|| FirstRetryMs(c) >= MaxMs(c)
        || FirstRetryMs(c) > InitialMs(c)
        || (FirstRetryMs(c) == InitialMs(c) && c.initialDelay % NANOS_PER_MILLI == 0))
  }

  // Whatever the factor, the delay never decreases, over however many attempts, exactly when
  // the configuration keeps its initial delay.
  lemma MonotoneIff(c: ReconnectConfig, last: nat)
    requires last >= 1
    ensures Monotone(c, last) <==> KeepsInitialDelay(c)
  {
    hide DelayOf, Monotone, FirstRetryMs;
    OnlyFirstStepMatters(c, last);
    FirstStep(c);
    DelayAtZero(c);
    if FirstRetryMs(c) < MaxMs(c) {
      InitialBelow(c, FirstRetryMs(c));
    }
  }

  lemma DelayAtZero(c: ReconnectConfig)
    ensures DelayOf(c, 0) == c.initialDelay
  {
  }

  // Comparing the initial delay with a whole number of milliseconds below the maximum.
  lemma InitialBelow(c: ReconnectConfig, ms: nat)
    requires ms < MaxMs(c)
    ensures c.initialDelay <= FromMillis(ms)
       <==> ms > InitialMs(c) || (ms == InitialMs(c) && c.initialDelay % NANOS_PER_MILLI == 0)
    ensures c.initialDelay <= FromMillis(ms) ==> c.initialDelay <= c.maxDelay
  {
    var i := c.initialDelay / NANOS_PER_MILLI;
    assert c.initialDelay == i * NANOS_PER_MILLI + c.initialDelay % NANOS_PER_MILLI;
    WithinMax(c, ms);
  }

  // For instance, 1.5 ms with factor 1.0 is followed by 1 ms.
  lemma FractionIsLost()
    ensures !Monotone(ReconnectConfig(true, 1_500_000, 60_000_000_000, 10, None), U32_MAX)
  {
    var c := ReconnectConfig(true, 1_500_000, 60_000_000_000, 10, None);
    assert InitialMs(c) == 1 && MaxMs(c) == 60_000 && FirstRetryMs(c) == 1;
    MonotoneIff(c, U32_MAX);
  }

  // And 2 * 10^17 ms with factor 1.0, below a maximum of 3 * 10^17 ms, shrinks by saturation.
  lemma SaturationShrinks()
    ensures
      var c := ReconnectConfig(true, FromMillis(200_000_000_000_000_000), FromMillis(300_000_000_000_000_000), 10, None);
      !Monotone(c, U32_MAX) && c.initialDelay <= c.maxDelay && c.initialDelay % NANOS_PER_MILLI == 0
  {
    var c := ReconnectConfig(true, FromMillis(200_000_000_000_000_000), FromMillis(300_000_000_000_000_000), 10, None);
    assert InitialMs(c) == 200_000_000_000_000_000 && MaxMs(c) == 300_000_000_000_000_000;
    MonotoneIff(c, U32_MAX);
  }

  // A growing delay below a maximum of 2^k milliseconds is at it after 20 k attempts at most,
  // and stays there.
  lemma ReachesMax(c: ReconnectConfig, k: nat, attempt: nat)
    requires c.factorTenths >= 11 && InitialMs(c) >= 1 && CapReachable(c)
    requires MaxMs(c) <= Pow2(k) && attempt >= 20 * k && attempt >= 1
    ensures DelayOf(c, attempt) == c.maxDelay
  {
    DelayIsCapped(c, attempt);
    GrownDoubles(c, k);
    GrownMonotone(c, 20 * k, attempt);
  }

  // So every growing delay is at any maximum it can reach from attempt 1160 on.
  lemma ReachesAnyMax(c: ReconnectConfig, attempt: nat)
    requires c.factorTenths >= 11 && InitialMs(c) >= 1 && attempt >= 1160
    ensures DelayOf(c, attempt) == c.maxDelay <==> CapReachable(c)
  {
    if CapReachable(c) {
      WordSizes();
      ReachesMax(c, 58, attempt);
    } else {
      StuckBelowMax(c, attempt);
    }
  }

  lemma DelayBounded(c: ReconnectConfig, attempt: nat)
    ensures DelayOf(c, attempt) <= if c.initialDelay <= c.maxDelay then c.maxDelay else c.initialDelay
  {
    if attempt > 0 && Turns(c, attempt).Some? {
      WithinMax(c, Min(Turns(c, attempt).value / 10, MaxMs(c)));
    }
  }
}
