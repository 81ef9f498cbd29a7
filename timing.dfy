/**
 * The blink timing of the control: the timer interval derived from the show and hide
 * durations by Euclid's algorithm, and the phase test that decides whether blinking text is
 * drawn. Elapsed time is a parameter counted in whole milliseconds.
 */
module Timing {
  import opened Wrappers

  const BlinkShowMs: int := 600
  const BlinkHideMs: int := 300
  /** The timer never ticks less often than this, in milliseconds. */
  const MaxBlinkIntervalMs: int := 150

  function Abs(x: int): (r: nat)
    ensures r == x || r == -x
  {
    if x < 0 then -x else x
  }

  function Min(a: int, b: int): (m: int)
    ensures m <= a && m <= b && (m == a || m == b)
  {
    if a <= b then a else b
  }

  ghost predicate Divides(d: int, n: int) {
    exists q :: q * d == n
  }

  /** g is the greatest common divisor of a and b, as the source's loop promises for b != 0. */
  ghost predicate IsGcd(g: int, a: int, b: int) {
    g > 0 && Divides(g, a) && Divides(g, b) &&
    forall d :: Divides(d, a) && Divides(d, b) ==> Divides(d, g)
  }

  lemma DividesNegation(d: int, n: int)
    requires Divides(d, n)
    ensures Divides(d, -n)
  {
    var q :| q * d == n;
    assert (-q) * d == -n;
  }

  lemma DividesAbs(d: int, n: int)
    ensures Divides(d, n) <==> Divides(d, Abs(n))
  {
    if Divides(d, n) { DividesNegation(d, n); }
    if Divides(d, Abs(n)) && n < 0 {
      DividesNegation(d, Abs(n));
    }
  }

  /** A common divisor of x and y divides x % y, and a divisor of y and x % y divides x. */
  lemma DividesRemainder(d: int, x: int, y: int)
    requires y > 0 && Divides(d, y)
    ensures Divides(d, x) <==> Divides(d, x % y)
  {
    var qy :| qy * d == y;
    assert x == (x / y) * y + x % y;
    if Divides(d, x) {
      var qx :| qx * d == x;
      assert (qx - (x / y) * qy) * d == x % y;
    }
    if Divides(d, x % y) {
      var qr :| qr * d == x % y;
      assert ((x / y) * qy + qr) * d == x;
    }
  }

  lemma DividesLe(d: int, n: int)
    requires d > 0 && n > 0 && Divides(d, n)
    ensures d <= n
  {
    var q :| q * d == n;
    MulPositive(q, d);
  }

  lemma MulPositive(q: int, d: int)
    requires d > 0 && q * d > 0
    ensures q >= 1 && q * d >= d
  {
    if q < 1 {
      MulNonPositive(q, d);
    }
  }

  lemma MulNonPositive(q: int, d: int)
    requires d > 0 && q < 1
    ensures q * d <= 0
  {
  }

  /** Two greatest common divisors of the same pair are equal. */
  lemma GcdUnique(g: int, h: int, a: int, b: int)
    requires IsGcd(g, a, b) && IsGcd(h, a, b)
    ensures g == h
  {
    assert Divides(g, h);
    assert Divides(h, g);
    DividesLe(g, h);
    DividesLe(h, g);
  }

  /**
   * Euclid's algorithm on the absolute values of a and b. The source divides by b at once, so
   * b == 0 ends in a division-by-zero exception, modelled as None.
   */
  method Gcd(a: int, b: int) returns (r: Option<int>)
    ensures r.None? <==> b == 0
    ensures r.Some? ==> IsGcd(r.value, a, b)
  {
    var x := Abs(a);
    var y := Abs(b);
    if y == 0 {
      return None;
    }
    forall d
      ensures Divides(d, x) && Divides(d, y) <==> Divides(d, a) && Divides(d, b)
    {
      DividesAbs(d, a);
      DividesAbs(d, b);
    }
    while true
      invariant x >= 0 && y > 0
      invariant forall d :: Divides(d, x) && Divides(d, y) <==> Divides(d, a) && Divides(d, b)
      decreases y
    {
      var remainder := x % y;
      if remainder == 0 {
        assert 1 * y == y;
        assert (x / y) * y == x;
        forall d | Divides(d, a) && Divides(d, b)
          ensures Divides(d, y)
        {
        }
        return Some(y);
      }
      forall d
        ensures Divides(d, y) && Divides(d, remainder) <==> Divides(d, x) && Divides(d, y)
      {
        if Divides(d, y) {
          DividesRemainder(d, x, y);
        }
      }
      x := y;
      y := remainder;
    }
  }

  /** 300 is the greatest common divisor of the default show and hide durations. */
  lemma DefaultDurationsGcd()
    ensures IsGcd(300, BlinkShowMs, BlinkHideMs)
  {
    assert 2 * 300 == 600 && 1 * 300 == 300;
    forall d | Divides(d, 600) && Divides(d, 300)
      ensures Divides(d, 300)
    {
    }
  }

  /** The blink timer interval the constructor sets: the smaller of 150 ms and the gcd of the
   * two durations, which for the defaults is 150 ms. */
  method BlinkTimerInterval() returns (interval: int)
    ensures interval == MaxBlinkIntervalMs
  {
    var g := Gcd(BlinkShowMs, BlinkHideMs);
    DefaultDurationsGcd();
    GcdUnique(g.value, 300, BlinkShowMs, BlinkHideMs);
    interval := Min(MaxBlinkIntervalMs, g.value);
  }

  /** One blink cycle: blinking text is visible for the first BlinkHideMs of it. The phase test
   * compares against BlinkHideMs, so blinking text is shown for 300 ms and hidden for the
   * remaining 600 ms (the length of BlinkShowMs): the reverse of what the two names suggest,
   * and the model keeps the comparison as the source makes it. */
  const BlinkCycleMs: int := BlinkShowMs + BlinkHideMs

  /** The blink phase test as written: it reduces the millisecond component of the elapsed
   * time, which only runs from 0 to 999, modulo the 900 ms cycle. */
  function BlinkVisibleAsWritten(elapsedMs: nat): (visible: bool)
    ensures visible == BlinkVisible(elapsedMs % 1000)
    ensures elapsedMs < 1000 ==> visible == BlinkVisible(elapsedMs)
  {
    (elapsedMs % 1000) % BlinkCycleMs < BlinkHideMs
  }

  /** The phase test on the whole elapsed time: visible in the first BlinkHideMs of each cycle. */
  function BlinkVisible(elapsedMs: nat): (visible: bool)
    ensures elapsedMs < BlinkCycleMs ==> (visible <==> elapsedMs < BlinkHideMs)
    ensures elapsedMs >= BlinkCycleMs ==> visible == BlinkVisible(elapsedMs - BlinkCycleMs)
  {
    if elapsedMs >= BlinkCycleMs then
      ModCycles(elapsedMs - BlinkCycleMs, 1);
      elapsedMs % BlinkCycleMs < BlinkHideMs
    else
      elapsedMs % BlinkCycleMs < BlinkHideMs
  }

  /** The test as written is not periodic in the blink cycle: 300 ms is hidden, one cycle later
   * 1200 ms is visible, because the millisecond component of 1200 ms is 200. */
  lemma BlinkAsWrittenNotPeriodic()
    ensures !BlinkVisibleAsWritten(300)
    ensures BlinkVisibleAsWritten(300 + BlinkCycleMs)
    ensures BlinkVisibleAsWritten(300 + BlinkCycleMs) != BlinkVisible(300 + BlinkCycleMs)
  {
  }

  lemma {:induction false} ModCycles(t: nat, k: nat)
    ensures (t + k * BlinkCycleMs) % BlinkCycleMs == t % BlinkCycleMs
  {
    if k > 0 {
      ModCycles(t, k - 1);
      assert t + k * BlinkCycleMs == (t + (k - 1) * BlinkCycleMs) + BlinkCycleMs;
    }
  }

  /** The corrected test repeats every cycle. */
  lemma BlinkPeriodic(t: nat, k: nat)
    ensures BlinkVisible(t + k * BlinkCycleMs) == BlinkVisible(t)
  {
    ModCycles(t, k);
  }

  /** Within the k-th cycle the corrected test shows the text exactly in its first BlinkHideMs. */
  lemma BlinkPhase(t: nat, k: nat)
    requires k * BlinkCycleMs <= t < (k + 1) * BlinkCycleMs
    ensures BlinkVisible(t) <==> t - k * BlinkCycleMs < BlinkHideMs
  {
    var p: nat := t - k * BlinkCycleMs;
    ModCycles(p, k);
    assert p < BlinkCycleMs;
  }
}
