/**
 * The wall-clock arithmetic of static/inner.js. Nothing here waits: the
 * sleeping itself is outside the model, only the target instants are
 * computed. Receive instants fall on quarter milliseconds (`i + 1.25`
 * pulses), so they are given in units of a quarter millisecond.
 */
module Clock {

  import opened Arith

  /**
   * `sleepUntilNextRoundInterval`: `Math.ceil(now / interval) * interval`,
   * the first grid instant at or after `now`.
   */
  function NextGridPoint(now: int, interval: int): (t: int)
    requires interval > 0
    ensures t % interval == 0
    ensures now <= t < now + interval
  {
    var k := -((-now) / interval);
    GridArithmetic(now, interval, k);
    k * interval
  }

  lemma GridArithmetic(now: int, interval: int, k: int)
    requires interval > 0 && k == -((-now) / interval)
    ensures (k * interval) % interval == 0
    ensures now <= k * interval < now + interval
  {
    var m := -now;
    assert m == interval * (m / interval) + m % interval;
    assert k * interval == now + m % interval;
    DivModUnique(k * interval, interval, k, 0);
  }

  /** Two participants whose clocks read within the same grid cell compute the same sleep target. */
  lemma {:induction false} SameCellSameGridPoint(now1: int, now2: int, interval: int)
    requires interval > 0
    requires NextGridPoint(now1, interval) - interval < now2 <= NextGridPoint(now1, interval)
    ensures NextGridPoint(now2, interval) == NextGridPoint(now1, interval)
  {
    var t1, t2 := NextGridPoint(now1, interval), NextGridPoint(now2, interval);
    var q1, q2 := t1 / interval, t2 / interval;
    assert t1 == interval * q1 + t1 % interval;
    assert t2 == interval * q2 + t2 % interval;
    assert interval * (q2 - q1) == t2 - t1;
    MulSign(interval, q2 - q1);
  }

  /** The instant `sendInteger` waits for before setting digit `i`: `startTime + (i + 1) * pulseMs`. */
  function SendBoundary(startTime: int, i: nat, pulseMs: nat): int
  {
    startTime + (i + 1) * pulseMs
  }

  /** Four times the instant `receiveInteger` waits for before reading digit `i`: `startTime + (i + 1.25) * pulseMs`. */
  function ReceiveSampleQuarters(startTime: int, i: nat, pulseMs: nat): int
  {
    4 * startTime + (4 * i + 5) * pulseMs
  }

  /**
   * The receiver reads digit `i` a quarter pulse after the sender sets it
   * and three quarters of a pulse before the sender moves on to digit `i + 1`.
   */
  lemma SampleInsidePulse(startTime: int, i: nat, pulseMs: nat)
    requires pulseMs > 0
    ensures ReceiveSampleQuarters(startTime, i, pulseMs) == 4 * SendBoundary(startTime, i, pulseMs) + pulseMs
    ensures 4 * SendBoundary(startTime, i, pulseMs) < ReceiveSampleQuarters(startTime, i, pulseMs)
    ensures ReceiveSampleQuarters(startTime, i, pulseMs) < 4 * SendBoundary(startTime, i + 1, pulseMs)
  {
    assert (4 * i + 5) * pulseMs == 4 * ((i + 1) * pulseMs) + pulseMs;
    assert (i + 2) * pulseMs == (i + 1) * pulseMs + pulseMs;
  }

  /**
   * The driver loop sleeps until the grid point `g` of the round interval
   * `(1 + listSize) * pulseMs`, and `t0` is the clock reading after waking,
   * `late` milliseconds past `g`. The sender's last boundary falls before the
   * next grid point exactly when the wake-up is less than a pulse late, and
   * the receiver's last sample exactly when it is less than three quarters of
   * a pulse late.
   */
  lemma SessionFitsInterval(g: int, late: nat, listSize: nat, pulseMs: nat)
    requires listSize > 0 && pulseMs > 0
    ensures SendBoundary(g + late, listSize - 1, pulseMs) < g + (1 + listSize) * pulseMs
            <==> late < pulseMs
    ensures ReceiveSampleQuarters(g + late, listSize - 1, pulseMs) < 4 * (g + (1 + listSize) * pulseMs)
            <==> 4 * late < 3 * pulseMs
  {
    assert (1 + listSize) * pulseMs == listSize * pulseMs + pulseMs;
    assert (4 * (listSize - 1) + 5) * pulseMs == 4 * (listSize * pulseMs) + pulseMs;
  }
}
