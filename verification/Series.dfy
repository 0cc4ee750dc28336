/**
  Series of failures told by the indices of their builds: what the history report is to say
  (dev/buildchecker/history.go).  Builds run from newest to oldest.
 */
module Series {
  import opened Builds
  import opened Tally

  // Formats a time as a day.
  type Calendar = int -> Day

  // Time spans are in nanoseconds; minutes are truncated toward zero.
  const MINUTE := 60_000_000_000

  function Minutes(span: int): (m: int)
    ensures span >= 0 ==> m * MINUTE <= span < (m + 1) * MINUTE
    ensures span <= 0 ==> (m - 1) * MINUTE < span <= m * MINUTE
  {
    if span >= 0 then span / MINUTE else -((-span) / MINUTE)
  }

  predicate AllCreated(bs: seq<Build>) {
    forall i :: 0 <= i < |bs| ==> bs[i].createdAt.Some?
  }

  // The builds from s up to e, between two builds that end a series or the ends of the list.
  predicate IsSeries(bs: seq<Build>, s: nat, e: nat) {
    && s <= e <= |bs|
    && (s == 0 || Stops(bs[s - 1])) && (e == |bs| || Stops(bs[e]))
    && forall i :: s <= i < e ==> !Stops(bs[i])
  }

  // A series with a failure that reaches the threshold.
  predicate ExceededSeries(bs: seq<Build>, s: nat, e: nat, threshold: int, clock: Clock) {
    IsSeries(bs, s, e) && var n := |CountedIndices(bs, s, e, clock)|; n >= 1 && n >= threshold
  }

  // The first failed build from s on, of whatever source.
  predicate IsFirstFailed(bs: seq<Build>, s: nat, f: nat, clock: Clock) {
    s <= f < |bs| && IsBuildFailed(bs[f], clock) && forall i :: s <= i < f ==> !IsBuildFailed(bs[i], clock)
  }

  // The time of the last passed build before index f, or the start of the window when there is none.
  predicate IsLastPassed(bs: seq<Build>, f: nat, time: int, start: int)
    requires AllCreated(bs) && f <= |bs|
  {
    || (time == start && forall p :: 0 <= p < f ==> !IsBuildPassed(bs[p]))
    || exists p :: 0 <= p < f && IsBuildPassed(bs[p]) && time == bs[p].createdAt.value &&
                   forall q :: p < q < f ==> !IsBuildPassed(bs[q])
  }

  // The red time of a series: from the last passed build before its first failed one back to its
  // oldest failure, on the day of that failure.
  ghost predicate IsIncident(bs: seq<Build>, s: nat, e: nat, entry: Entry, clock: Clock, cal: Calendar, start: int)
    requires AllCreated(bs) && s <= e <= |bs|
  {
    var idx := CountedIndices(bs, s, e, clock);
    idx != [] &&
    var oldest := bs[idx[|idx| - 1]].createdAt.value;
    exists f, time :: IsFirstFailed(bs, s, f, clock) && IsLastPassed(bs, f, time, start) &&
                      entry == Entry(cal(oldest), Minutes(time - oldest))
  }

  // One entry for every exceeded series and none besides.
  ghost predicate AreIncidents(bs: seq<Build>, spans: seq<(nat, nat)>, entries: seq<Entry>, threshold: int,
                               clock: Clock, cal: Calendar, start: int)
    requires AllCreated(bs)
  {
    && |spans| == |entries|
    && (forall i, j :: 0 <= i < j < |spans| ==> spans[i].1 < spans[j].0)
    && (forall k :: 0 <= k < |spans| ==>
          && ExceededSeries(bs, spans[k].0, spans[k].1, threshold, clock)
          && IsIncident(bs, spans[k].0, spans[k].1, entries[k], clock, cal, start))
    && (forall s: nat, e: nat :: ExceededSeries(bs, s, e, threshold, clock) ==> (s, e) in spans)
  }

  // A failure in a series that is not exceeded.
  ghost predicate IsFlake(bs: seq<Build>, i: nat, threshold: int, clock: Clock) {
    && i < |bs| && Counts(bs[i], clock)
    && exists s: nat, e: nat :: IsSeries(bs, s, e) && s <= i < e && !ExceededSeries(bs, s, e, threshold, clock)
  }

  // The flakes by index, in order.
  ghost predicate AreFlakes(bs: seq<Build>, idx: seq<nat>, threshold: int, clock: Clock) {
    && (forall i, j :: 0 <= i < j < |idx| ==> idx[i] < idx[j])
    && forall i: nat :: i in idx <==> IsFlake(bs, i, threshold, clock)
  }

  // One for the day of each build.
  ghost predicate CountDays(bs: seq<Build>, idx: seq<nat>, entries: seq<Entry>, cal: Calendar)
    requires AllCreated(bs)
  {
    && |entries| == |idx|
    && forall k :: 0 <= k < |idx| ==> idx[k] < |bs| && entries[k] == Entry(cal(bs[idx[k]].createdAt.value), 1)
  }
}
