/** How long a read that has caught up with a growing stream waits for more. Both streams share this. */
module TailWait {
  import opened Basics
  import opened AddressSpace

  const SAMPLE_COUNT: int := 5
  const MIN_SEGMENT_DURATION_MS: int := 1500
  const DEFAULT_SEGMENT_DURATION_MS: int := 6000
  const CATCH_UP_SLEEP_MS: int := 250
  const SEEK_PROBE_WINDOW_MS: int := 800

  function EstimateSegmentDurationMs<K>(sp: Space<K>): int {
    var sampleCount := Min(SAMPLE_COUNT, |sp.segments|);
    var average :=
      if sampleCount > 0 && sp.totalDurationMs - sp.segments[|sp.segments| - sampleCount].timeOffsetMs > 0 then
        (sp.totalDurationMs - sp.segments[|sp.segments| - sampleCount].timeOffsetMs) / sampleCount
      else
        DEFAULT_SEGMENT_DURATION_MS;
    Max(average, MIN_SEGMENT_DURATION_MS)
  }

  function ComputeCatchUpAttempts(likelySeekProbe: bool, estimateMs: int): int
    requires estimateMs >= 0
  {
    if likelySeekProbe then 1 else estimateMs * 3 / CATCH_UP_SLEEP_MS + 1
  }

  function DurationSum<K>(sp: Space<K>, from: nat): int
    requires from <= |sp.segments|
    decreases |sp.segments| - from
  {
    if from == |sp.segments| then 0 else sp.Duration(from) + DurationSum(sp, from + 1)
  }

  lemma {:induction false} DurationsTelescope<K>(sp: Space<K>, from: nat)
    requires from <= |sp.segments|
    ensures DurationSum(sp, from) == sp.totalDurationMs - sp.TimeBoundary(from)
    decreases |sp.segments| - from
  {
    if from < |sp.segments| {
      DurationsTelescope(sp, from + 1);
    }
  }

  /** The estimate is the floored mean of the last at most five segments' durations, 6000 when those do not add up
      to anything positive, and never below 1500. */
  lemma EstimateIsRecentMean<K>(sp: Space<K>)
    ensures var c, e := Min(5, |sp.segments|), EstimateSegmentDurationMs(sp);
      var recent := DurationSum(sp, |sp.segments| - c);
      && e >= 1500
      && (recent <= 0 ==> e == 6000)
      && (recent > 0 ==> (c * e <= recent < c * (e + 1)) || (recent < c * 1500 && e == 1500))
  {
    var c := Min(5, |sp.segments|);
    DurationsTelescope(sp, |sp.segments| - c);
  }

  lemma AttemptsTaken(estimateMs: int)
    requires estimateMs >= 0
    ensures ComputeCatchUpAttempts(true, estimateMs) == 1
    ensures var slept := (ComputeCatchUpAttempts(false, estimateMs) - 1) * CATCH_UP_SLEEP_MS;
      3 * estimateMs - CATCH_UP_SLEEP_MS < slept <= 3 * estimateMs
  {
  }

  /** A read at the tail shortly after a seek is taken for one of the demuxer's seek probes, unless a short wait has
      just been given up at this very position. Times are milliseconds; no seek yet is None. */
  predicate LikelySeekProbe(position: int, lastShortGiveUp: int, lastSeek: Option<int>, now: int) {
    position != lastShortGiveUp && lastSeek.Some? && now - lastSeek.value < SEEK_PROBE_WINDOW_MS
  }

  /** What a tail read remembers when it is over. */
  function ShortGiveUp(probe: bool, caughtUp: bool, position: int): int {
    if probe && !caughtUp then position else -1
  }
}
