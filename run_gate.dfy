/**
 * The gate in front of a popularity run: run again only when more than five
 * minutes have passed since the last check. Times are milliseconds since the
 * epoch, as `Date.getTime` gives them.
 */
module RunGate {

  /**
   * The stored last-check value: absent or empty, a string that is not a
   * date (its time is NaN), or a date at `ms`.
   */
  datatype LastCheck = Missing | Unparseable | At(ms: int)

  const MinMinutesBetweenRuns: real := 5.0

  /** `(now - last) / 1000 / 60`, computed exactly. */
  function MinutesSince(lastMs: int, nowMs: int): real {
    (nowMs - lastMs) as real / 1000.0 / 60.0
  }

  /**
   * `shouldUpdatePopularity`: always run without a last check; with an
   * unparseable one the comparison with NaN is false; otherwise run when more
   * than five minutes have passed.
   */
  function ShouldUpdatePopularity(lastCheck: LastCheck, nowMs: int): bool {
    match lastCheck
    case Missing => true
    case Unparseable => false
    case At(ms) => MinutesSince(ms, nowMs) > MinMinutesBetweenRuns
  }

  /** With a last check, the gate opens exactly when more than 300000 ms have passed. */
  lemma GateThreshold(lastMs: int, nowMs: int)
    ensures ShouldUpdatePopularity(At(lastMs), nowMs) <==> nowMs - lastMs > 300000
  {
    var d := (nowMs - lastMs) as real;
    assert MinutesSince(lastMs, nowMs) == d / 60000.0;
    assert d / 60000.0 > 5.0 <==> d > 300000.0;
  }

  /** Once open, the gate stays open as time goes on. */
  lemma GateStaysOpen(lastCheck: LastCheck, nowMs: int, laterMs: int)
    requires nowMs <= laterMs && ShouldUpdatePopularity(lastCheck, nowMs)
    ensures ShouldUpdatePopularity(lastCheck, laterMs)
  {
    if lastCheck.At? {
      GateThreshold(lastCheck.ms, nowMs);
      GateThreshold(lastCheck.ms, laterMs);
    }
  }

  /** For five minutes after a check, and for a check stamped in the future, the gate stays shut. */
  lemma GateShutAfterRun(lastMs: int, nowMs: int)
    requires nowMs <= lastMs + 300000
    ensures !ShouldUpdatePopularity(At(lastMs), nowMs)
  {
    GateThreshold(lastMs, nowMs);
  }

  /** A missing last check always lets the run go ahead, and an unreadable one never does. */
  lemma GateWithoutDate(nowMs: int)
    ensures ShouldUpdatePopularity(Missing, nowMs) && !ShouldUpdatePopularity(Unparseable, nowMs)
  {
  }
}
