/**
  The build history report (dev/buildchecker/history.go, generateHistory): builds per day,
  flaky failures per day, and minutes of incidents per day.
 */
module History {
  import opened Builds
  import opened Tally
  import opened Series

  /** ---- The series of failures ---- */

  // What follows the first series and the passed build that ends it.
  function Later(bs: seq<Build>): (rest: seq<Build>)
    ensures bs != [] ==> |rest| < |bs|
  {
    if StopIndex(bs) < |bs| then bs[StopIndex(bs) + 1..] else []
  }

  function Runs(bs: seq<Build>, clock: Clock): seq<seq<Build>>
    decreases |bs|
  {
    if bs == [] then [] else [FirstRun(bs, clock)] + Runs(Later(bs), clock)
  }

  function Concat(runs: seq<seq<Build>>): seq<Build> {
    if runs == [] then [] else runs[0] + Concat(runs[1..])
  }

  // The failures in series below the threshold, and the size of all other series.
  function Flaky(runs: seq<seq<Build>>, threshold: int): seq<Build> {
    if runs == [] then []
    else (if Exceeds(runs[0], threshold) then [] else runs[0]) + Flaky(runs[1..], threshold)
  }

  function ExceededSize(runs: seq<seq<Build>>, threshold: int): nat {
    if runs == [] then 0
    else (if Exceeds(runs[0], threshold) then |runs[0]| else 0) + ExceededSize(runs[1..], threshold)
  }

  lemma CountedSplit(bs: seq<Build>, clock: Clock)
    requires bs != []
    ensures Counted(bs, clock) == FirstRun(bs, clock) + Counted(Later(bs), clock)
  {
    var p := StopIndex(bs);
    if p < |bs| {
      assert bs == bs[..p] + ([bs[p]] + Later(bs));
      CountedConcat(bs[..p], [bs[p]] + Later(bs), clock);
      assert ([bs[p]] + Later(bs))[1..] == Later(bs);
    } else {
      assert bs[..p] == bs;
    }
  }

  /** Every failure lands in exactly one series, in order. */
  lemma {:induction false} RunsPartitionFailures(bs: seq<Build>, clock: Clock)
    ensures Concat(Runs(bs, clock)) == Counted(bs, clock)
    decreases |bs|
  {
    if bs != [] {
      CountedSplit(bs, clock);
      RunsPartitionFailures(Later(bs), clock);
      assert Runs(bs, clock)[1..] == Runs(Later(bs), clock);
    }
  }

  lemma {:induction false} SizesAdd(runs: seq<seq<Build>>, threshold: int)
    ensures |Flaky(runs, threshold)| + ExceededSize(runs, threshold) == |Concat(runs)|
  {
    if runs != [] {
      SizesAdd(runs[1..], threshold);
    }
  }

  /** ---- Entries of the report ---- */

  function Ones(bs: seq<Build>, cal: Calendar): (es: seq<Entry>)
    requires AllCreated(bs)
    ensures |es| == |bs| && forall i :: 0 <= i < |bs| ==> es[i] == Entry(cal(bs[i].createdAt.value), 1)
  {
    seq(|bs|, i requires 0 <= i < |bs| => Entry(cal(bs[i].createdAt.value), 1))
  }

  lemma {:induction false} OnesAmount(es: seq<Entry>)
    requires forall i :: 0 <= i < |es| ==> es[i].amount == 1
    ensures Amounts(es) == |es|
  {
    if es != [] {
      OnesAmount(es[..|es| - 1]);
    }
  }

  // Index of the first failed build of any source, or the length.
  function FirstFailed(bs: seq<Build>, clock: Clock): (k: nat)
    ensures k <= |bs| && (k < |bs| ==> IsBuildFailed(bs[k], clock))
    ensures forall i :: 0 <= i < k ==> !IsBuildFailed(bs[i], clock)
  {
    if bs == [] || IsBuildFailed(bs[0], clock) then 0 else 1 + FirstFailed(bs[1..], clock)
  }

  // The creation time of the last passed build, or the given time.
  function LastPassed(bs: seq<Build>, start: int): int
    requires AllCreated(bs)
  {
    if bs == [] then start
    else if IsBuildPassed(bs[|bs| - 1]) then bs[|bs| - 1].createdAt.value
    else LastPassed(bs[..|bs| - 1], start)
  }

  // An exceeded series, from the passed build before its first failure back to its oldest failure.
  function IncidentOf(run: seq<Build>, passed: int, cal: Calendar): Entry
    requires run != [] && AllCreated(run)
  {
    var oldest := run[|run| - 1].createdAt.value;
    Entry(cal(oldest), Minutes(passed - oldest))
  }

  lemma {:induction false} CountedCreated(bs: seq<Build>, clock: Clock)
    requires AllCreated(bs)
    ensures AllCreated(Counted(bs, clock))
  {
    if bs != [] {
      CountedCreated(bs[1..], clock);
    }
  }

  // The incidents of the series from position s on.
  function IncidentsFrom(bs: seq<Build>, s: nat, threshold: int, clock: Clock, cal: Calendar, start: int): seq<Entry>
    requires AllCreated(bs) && s <= |bs|
    decreases |bs| - s
  {
    if s == |bs| then []
    else
      var rest := bs[s..];
      var run := FirstRun(rest, clock);
      var next := if StopIndex(rest) < |rest| then s + StopIndex(rest) + 1 else |bs|;
      CountedCreated(rest[..StopIndex(rest)], clock);
      (if Exceeds(run, threshold)
       then [IncidentOf(run, LastPassed(bs[..s + FirstFailed(rest, clock)], start), cal)] else [])
      + IncidentsFrom(bs, next, threshold, clock, cal, start)
  }

  /** ---- Skipping builds that did not fail changes nothing ---- */

  lemma FirstRunShift(bs: seq<Build>, clock: Clock)
    requires bs != [] && !Stops(bs[0]) && !Counts(bs[0], clock)
    ensures StopIndex(bs) == 1 + StopIndex(bs[1..])
    ensures FirstRun(bs, clock) == FirstRun(bs[1..], clock)
  {
    var p := StopIndex(bs);
    assert bs[..p][1..] == bs[1..][..p - 1];
  }

  lemma FlakySkipsOne(bs: seq<Build>, threshold: int, clock: Clock)
    requires bs != [] && !Counts(bs[0], clock)
    ensures Flaky(Runs(bs, clock), threshold) == Flaky(Runs(bs[1..], clock), threshold)
  {
    var tail := bs[1..];
    var runs := Runs(bs, clock);
    assert runs[0] == FirstRun(bs, clock) && runs[1..] == Runs(Later(bs), clock);
    if Stops(bs[0]) {
      assert runs[0] == [] && Later(bs) == tail;
    } else {
      FirstRunShift(bs, clock);
      if tail == [] {
        assert runs[0] == FirstRun([], clock) == [] && Later(bs) == [];
      } else {
        assert Later(bs) == Later(tail);
        assert Runs(tail, clock)[1..] == Runs(Later(tail), clock);
      }
    }
  }

  lemma IncidentsSkipOne(bs: seq<Build>, s: nat, threshold: int, clock: Clock, cal: Calendar, start: int)
    requires AllCreated(bs) && s < |bs| && !IsBuildFailed(bs[s], clock)
    ensures IncidentsFrom(bs, s, threshold, clock, cal, start) == IncidentsFrom(bs, s + 1, threshold, clock, cal, start)
  {
    var rest := bs[s..];
    assert rest[1..] == bs[s + 1..];
    if Stops(bs[s]) {
      assert FirstRun(rest, clock) == [];
    } else {
      FirstRunShift(rest, clock);
    }
  }

  // The flaky failures from position s on.
  function FlakesFrom(bs: seq<Build>, s: nat, threshold: int, clock: Clock): seq<Build>
    requires s <= |bs|
  {
    Flaky(Runs(bs[s..], clock), threshold)
  }

  predicate Unfailed(bs: seq<Build>, s: nat, k: nat, clock: Clock) {
    s + k <= |bs| && forall i :: s <= i < s + k ==> !IsBuildFailed(bs[i], clock)
  }

  lemma FlakesSkipOne(bs: seq<Build>, s: nat, threshold: int, clock: Clock)
    requires s < |bs| && !IsBuildFailed(bs[s], clock)
    ensures FlakesFrom(bs, s, threshold, clock) == FlakesFrom(bs, s + 1, threshold, clock)
  {
    assert bs[s..][0] == bs[s] && bs[s..][1..] == bs[s + 1..];
    FlakySkipsOne(bs[s..], threshold, clock);
  }

  // A function that no step changes has one value.
  lemma {:induction false} NoStepChanges<T>(f: nat -> T, s: nat, k: nat)
    requires forall i: nat :: s <= i < s + k ==> SameNext(f, i)
    ensures f(s) == f(s + k)
  {
    if k > 0 {
      NoStepChanges(f, s, k - 1);
      assert SameNext(f, s + k - 1);
    }
  }

  ghost predicate SameNext<T>(f: nat -> T, i: nat) {
    f(i) == f(i + 1)
  }

  function FlakesAt(bs: seq<Build>, threshold: int, clock: Clock): nat -> seq<Build> {
    (i: nat) => if i <= |bs| then FlakesFrom(bs, i, threshold, clock) else []
  }

  lemma FlakesAtNext(bs: seq<Build>, i: nat, threshold: int, clock: Clock)
    requires i < |bs| && !IsBuildFailed(bs[i], clock)
    ensures SameNext(FlakesAt(bs, threshold, clock), i)
  {
    FlakesSkipOne(bs, i, threshold, clock);
  }

  lemma FlakesAtSkip(bs: seq<Build>, s: nat, k: nat, threshold: int, clock: Clock, f: nat -> seq<Build>)
    requires Unfailed(bs, s, k, clock) && f == FlakesAt(bs, threshold, clock)
    ensures f(s) == f(s + k)
  {
    forall i: nat | s <= i < s + k ensures SameNext(f, i) {
      FlakesAtNext(bs, i, threshold, clock);
    }
    NoStepChanges(f, s, k);
  }

  lemma FlakesSkip(bs: seq<Build>, s: nat, k: nat, threshold: int, clock: Clock)
    requires Unfailed(bs, s, k, clock)
    ensures FlakesFrom(bs, s, threshold, clock) == FlakesFrom(bs, s + k, threshold, clock)
  {
    FlakesAtSkip(bs, s, k, threshold, clock, FlakesAt(bs, threshold, clock));
  }

  function IncidentsAt(bs: seq<Build>, threshold: int, clock: Clock, cal: Calendar, start: int): nat -> seq<Entry>
    requires AllCreated(bs)
  {
    (i: nat) => if i <= |bs| then IncidentsFrom(bs, i, threshold, clock, cal, start) else []
  }

  lemma IncidentsAtNext(bs: seq<Build>, i: nat, threshold: int, clock: Clock, cal: Calendar, start: int)
    requires AllCreated(bs) && i < |bs| && !IsBuildFailed(bs[i], clock)
    ensures SameNext(IncidentsAt(bs, threshold, clock, cal, start), i)
  {
    IncidentsSkipOne(bs, i, threshold, clock, cal, start);
  }

  lemma IncidentsAtSkip(bs: seq<Build>, s: nat, k: nat, threshold: int, clock: Clock, cal: Calendar, start: int,
                        f: nat -> seq<Entry>)
    requires AllCreated(bs) && Unfailed(bs, s, k, clock) && f == IncidentsAt(bs, threshold, clock, cal, start)
    ensures f(s) == f(s + k)
  {
    forall i: nat | s <= i < s + k ensures SameNext(f, i) {
      IncidentsAtNext(bs, i, threshold, clock, cal, start);
    }
    NoStepChanges(f, s, k);
  }

  lemma IncidentsSkip(bs: seq<Build>, s: nat, k: nat, threshold: int, clock: Clock, cal: Calendar, start: int)
    requires AllCreated(bs) && Unfailed(bs, s, k, clock)
    ensures IncidentsFrom(bs, s, threshold, clock, cal, start) == IncidentsFrom(bs, s + k, threshold, clock, cal, start)
  {
    IncidentsAtSkip(bs, s, k, threshold, clock, cal, start, IncidentsAt(bs, threshold, clock, cal, start));
  }

  lemma {:induction false} FirstFailedSkip(bs: seq<Build>, s: nat, k: nat, clock: Clock)
    requires Unfailed(bs, s, k, clock)
    ensures FirstFailed(bs[s..], clock) == k + FirstFailed(bs[s + k..], clock)
    decreases k
  {
    if k > 0 {
      assert bs[s..][1..] == bs[s + 1..];
      FirstFailedSkip(bs, s + 1, k - 1, clock);
    }
  }

  lemma {:induction false} LastPassedConcat(a: seq<Build>, b: seq<Build>, start: int)
    requires AllCreated(a) && AllCreated(b)
    ensures AllCreated(a + b) && LastPassed(a + b, start) == LastPassed(b, LastPassed(a, start))
    decreases |b|
  {
    if b == [] {
      assert a + b == a;
    } else {
      var n := |b| - 1;
      assert (a + b)[..|a| + n] == a + b[..n] && (a + b)[|a| + n] == b[n];
      LastPassedConcat(a, b[..n], start);
    }
  }

  /** ---- The loops ---- */

  // Up to the first failed build, remembering the last passed one; the index is 0 when none failed.
  method ScanToFailure(scanBuilds: seq<Build>, clock: Clock, lastPassed: int) returns (index: int, passed: int)
    requires AllCreated(scanBuilds)
    ensures index == if FirstFailed(scanBuilds, clock) < |scanBuilds| then FirstFailed(scanBuilds, clock) else 0
    ensures passed == LastPassed(scanBuilds[..FirstFailed(scanBuilds, clock)], lastPassed)
  {
    index, passed := 0, lastPassed;
    for i := 0 to |scanBuilds|
      invariant index == 0 && forall j :: 0 <= j < i ==> !IsBuildFailed(scanBuilds[j], clock)
      invariant passed == LastPassed(scanBuilds[..i], lastPassed)
    {
      assert scanBuilds[..i + 1][..i] == scanBuilds[..i];
      if IsBuildFailed(scanBuilds[i], clock) {
        index := i;
        assert FirstFailed(scanBuilds, clock) == i;
        return;
      } else if IsBuildPassed(scanBuilds[i]) {
        passed := scanBuilds[i].createdAt.value;
      }
    }
    assert FirstFailed(scanBuilds, clock) == |scanBuilds|;
  }

  // The most recent passed build of a finished batch.
  method PassedInBatch(batch: seq<Build>, lastPassed: int) returns (passed: int)
    requires AllCreated(batch)
    ensures passed == LastPassed(batch, lastPassed)
  {
    passed := lastPassed;
    for i := 0 to |batch|
      invariant passed == LastPassed(batch[..i], lastPassed)
    {
      assert batch[..i + 1][..i] == batch[..i];
      if IsBuildPassed(batch[i]) {
        passed := batch[i].createdAt.value;
      }
    }
    assert batch[..|batch|] == batch;
  }

  // One for the day of each commit's build.
  function CommitEntries(failed: seq<CommitInfo>, cal: Calendar): (es: seq<Entry>)
    ensures |es| == |failed| && forall i :: 0 <= i < |failed| ==> es[i] == Entry(cal(failed[i].buildCreated), 1)
  {
    seq(|failed|, i requires 0 <= i < |failed| => Entry(cal(failed[i].buildCreated), 1))
  }

  lemma TotalNext(es: seq<Entry>, more: seq<Entry>, i: nat)
    requires i < |more|
    ensures Total(es + more[..i + 1]) == Add(Total(es + more[..i]), more[i])
  {
    TotalSnoc(es + more[..i], more[i]);
    assert es + more[..i + 1] == es + more[..i] + [more[i]];
  }

  // Adds one to the day of every failure.
  method CountFlakes(flakes: map<Day, int>, ghost es: seq<Entry>, failed: seq<CommitInfo>, cal: Calendar)
    returns (r: map<Day, int>)
    requires flakes == Total(es)
    ensures r == Total(es + CommitEntries(failed, cal))
  {
    r := flakes;
    ghost var more := CommitEntries(failed, cal);
    assert es + more[..0] == es;
    for i := 0 to |failed|
      invariant r == Total(es + more[..i])
    {
      TotalNext(es, more, i);
      var day := cal(failed[i].buildCreated);
      r := r[day := Get(r, day) + 1];
    }
    assert more[..|more|] == more;
  }

  lemma CreatedConcat(a: seq<Build>, b: seq<Build>)
    requires AllCreated(a) && AllCreated(b)
    ensures AllCreated(a + b)
  {
    forall i | 0 <= i < |a + b| ensures (a + b)[i].createdAt.Some? {
      assert (a + b)[i] == if i < |a| then a[i] else b[i - |a|];
    }
  }

  lemma OnesConcat(a: seq<Build>, b: seq<Build>, cal: Calendar)
    requires AllCreated(a) && AllCreated(b) && AllCreated(a + b)
    ensures Ones(a + b, cal) == Ones(a, cal) + Ones(b, cal)
  {
    forall i | 0 <= i < |a + b| ensures Ones(a + b, cal)[i] == (Ones(a, cal) + Ones(b, cal))[i] {
      assert (a + b)[i] == if i < |a| then a[i] else b[i - |a|];
    }
  }

  lemma OnesOfCommits(run: seq<Build>, cal: Calendar)
    requires AllCreated(run)
    ensures Ones(run, cal) == CommitEntries(Infos(run), cal)
  {
  }

  method CountBuilds(builds: seq<Build>, cal: Calendar) returns (totals: map<Day, int>)
    requires AllCreated(builds)
    ensures totals == Total(Ones(builds, cal))
  {
    totals := map[];
    ghost var ones := Ones(builds, cal);
    for i := 0 to |builds|
      invariant totals == Total(ones[..i])
    {
      TotalPrefix(ones, i);
      var day := cal(builds[i].createdAt.value);
      totals := totals[day := Get(totals, day) + 1];
    }
    assert ones[..|ones|] == ones;
  }

  // Position after the series that starts at s.
  function Next(bs: seq<Build>, s: nat): (n: nat)
    requires s < |bs|
    ensures s < n <= |bs|
  {
    var rest := bs[s..];
    if StopIndex(rest) < |rest| then s + StopIndex(rest) + 1 else |bs|
  }

  lemma FlakesOfBatch(bs: seq<Build>, s: nat, threshold: int, clock: Clock)
    requires s < |bs|
    ensures var run := FirstRun(bs[s..], clock);
            FlakesFrom(bs, s, threshold, clock) ==
            (if Exceeds(run, threshold) then [] else run) + FlakesFrom(bs, Next(bs, s), threshold, clock)
  {
    var rest := bs[s..];
    assert Later(rest) == bs[Next(bs, s)..];
    assert Runs(rest, clock)[0] == FirstRun(rest, clock) && Runs(rest, clock)[1..] == Runs(Later(rest), clock);
  }

  // A counted build in the first series is a failed build before the end of the list.
  lemma {:induction false} RunHasFailure(bs: seq<Build>, clock: Clock)
    requires Counted(bs, clock) != []
    ensures FirstFailed(bs, clock) < |bs|
  {
    if !Counts(bs[0], clock) {
      RunHasFailure(bs[1..], clock);
    }
  }

  lemma {:induction false} FirstFailedInPrefix(bs: seq<Build>, p: nat, clock: Clock)
    requires p <= |bs| && FirstFailed(bs[..p], clock) < p
    ensures FirstFailed(bs, clock) == FirstFailed(bs[..p], clock)
  {
    if !IsBuildFailed(bs[0], clock) {
      assert bs[..p][1..] == bs[1..][..p - 1];
      FirstFailedInPrefix(bs[1..], p - 1, clock);
    }
  }

  lemma FirstRunCreated(bs: seq<Build>, clock: Clock)
    requires AllCreated(bs)
    ensures AllCreated(FirstRun(bs, clock))
  {
    CountedCreated(bs[..StopIndex(bs)], clock);
  }

  lemma ExceededRunFails(bs: seq<Build>, threshold: int, clock: Clock)
    requires Exceeds(FirstRun(bs, clock), threshold)
    ensures FirstFailed(bs, clock) < |bs|
  {
    RunHasFailure(bs[..StopIndex(bs)], clock);
    FirstFailedInPrefix(bs, StopIndex(bs), clock);
  }

  lemma IncidentsOfBatch(bs: seq<Build>, s: nat, threshold: int, clock: Clock, cal: Calendar, start: int)
    requires AllCreated(bs) && s < |bs|
    ensures var run := FirstRun(bs[s..], clock);
            && AllCreated(run)
            && IncidentsFrom(bs, s, threshold, clock, cal, start) ==
               (if Exceeds(run, threshold)
                then [IncidentOf(run, LastPassed(bs[..s + FirstFailed(bs[s..], clock)], start), cal)] else [])
               + IncidentsFrom(bs, Next(bs, s), threshold, clock, cal, start)
  {
    FirstRunCreated(bs[s..], clock);
  }

  // The parameters of one report.
  datatype Setting = Setting(builds: seq<Build>, threshold: int, clock: Clock, cal: Calendar, windowStart: int)

  // What is still to be reported from position s on.
  ghost function FlakesLeft(c: Setting, s: nat): seq<Build>
    requires s <= |c.builds|
  {
    FlakesFrom(c.builds, s, c.threshold, c.clock)
  }

  ghost function IncidentsLeft(c: Setting, s: nat): seq<Entry>
    requires AllCreated(c.builds) && s <= |c.builds|
  {
    IncidentsFrom(c.builds, s, c.threshold, c.clock, c.cal, c.windowStart)
  }

  // `fb` are the flaky failures and `ie` the incidents reported before position s.
  ghost predicate Progress(c: Setting, s: nat, fb: seq<Build>, ie: seq<Entry>) {
    && AllCreated(c.builds) && s <= |c.builds| && AllCreated(fb)
    && fb + FlakesLeft(c, s) == FlakesLeft(c, 0)
    && ie + IncidentsLeft(c, s) == IncidentsLeft(c, 0)
  }

  lemma ProgressStart(c: Setting)
    requires AllCreated(c.builds)
    ensures Progress(c, 0, [], [])
  {
  }

  lemma ProgressSkip(c: Setting, s: nat, k: nat, from: nat, fb: seq<Build>, ie: seq<Entry>)
    requires Progress(c, s, fb, ie) && Unfailed(c.builds, s, k, c.clock) && from == s + k
    ensures Progress(c, from, fb, ie)
  {
    FlakesSkip(c.builds, s, k, c.threshold, c.clock);
    IncidentsSkip(c.builds, s, k, c.threshold, c.clock, c.cal, c.windowStart);
  }

  lemma FlakesProgress(bs: seq<Build>, s: nat, threshold: int, clock: Clock, fb: seq<Build>, all: seq<Build>)
    requires s < |bs| && fb + FlakesFrom(bs, s, threshold, clock) == all
    ensures var run := FirstRun(bs[s..], clock);
            (if Exceeds(run, threshold) then fb else fb + run) + FlakesFrom(bs, Next(bs, s), threshold, clock) == all
  {
    var run := FirstRun(bs[s..], clock);
    var rest := FlakesFrom(bs, Next(bs, s), threshold, clock);
    FlakesOfBatch(bs, s, threshold, clock);
    Regroup(fb, run, rest);
    assert [] + rest == rest;
  }

  lemma IncidentsProgress(c: Setting, s: nat, ie: seq<Entry>, all: seq<Entry>, passed: int)
    requires AllCreated(c.builds) && s < |c.builds|
    requires ie + IncidentsFrom(c.builds, s, c.threshold, c.clock, c.cal, c.windowStart) == all
    requires PassedBefore(c, s, passed)
    ensures var run := FirstRun(c.builds[s..], c.clock);
            && AllCreated(run)
            && (if Exceeds(run, c.threshold) then ie + [IncidentOf(run, passed, c.cal)] else ie)
               + IncidentsFrom(c.builds, Next(c.builds, s), c.threshold, c.clock, c.cal, c.windowStart) == all
  {
    var run := FirstRun(c.builds[s..], c.clock);
    var rest := IncidentsFrom(c.builds, Next(c.builds, s), c.threshold, c.clock, c.cal, c.windowStart);
    IncidentsOfBatch(c.builds, s, c.threshold, c.clock, c.cal, c.windowStart);
    if Exceeds(run, c.threshold) {
      ExceededRunFails(c.builds[s..], c.threshold, c.clock);
      Regroup(ie, [IncidentOf(run, passed, c.cal)], rest);
    } else {
      assert [] + rest == rest;
    }
  }

  // `passed` is the last passed build before the next failed one, if one follows.
  ghost predicate PassedBefore(c: Setting, s: nat, passed: int)
    requires AllCreated(c.builds) && s <= |c.builds|
  {
    var rest := c.builds[s..];
    FirstFailed(rest, c.clock) < |rest| ==>
      passed == LastPassed(c.builds[..s + FirstFailed(rest, c.clock)], c.windowStart)
  }

  lemma ProgressBatch(c: Setting, s: nat, fb: seq<Build>, ie: seq<Entry>, passed: int)
    requires Progress(c, s, fb, ie) && s < |c.builds| && PassedBefore(c, s, passed)
    ensures var run := FirstRun(c.builds[s..], c.clock);
            && AllCreated(run)
            && Progress(c, Next(c.builds, s), if Exceeds(run, c.threshold) then fb else fb + run,
                        if Exceeds(run, c.threshold) then ie + [IncidentOf(run, passed, c.cal)] else ie)
  {
    FlakesProgress(c.builds, s, c.threshold, c.clock, fb, FlakesFrom(c.builds, 0, c.threshold, c.clock));
    IncidentsProgress(c, s, ie, IncidentsFrom(c.builds, 0, c.threshold, c.clock, c.cal, c.windowStart), passed);
  }

  lemma Regroup<T>(a: seq<T>, b: seq<T>, c: seq<T>)
    ensures a + (b + c) == a + b + c
  {
  }

  lemma ProgressEnd(c: Setting, fb: seq<Build>, ie: seq<Entry>)
    requires Progress(c, |c.builds|, fb, ie)
    ensures fb == Flaky(Runs(c.builds, c.clock), c.threshold)
    ensures ie == IncidentsFrom(c.builds, 0, c.threshold, c.clock, c.cal, c.windowStart)
  {
    assert c.builds[|c.builds|..] == [] && c.builds[0..] == c.builds;
  }

  // An exceeded batch adds its red time to the day of its oldest failure.
  method AddIncident(ghost run: seq<Build>, failed: seq<CommitInfo>, lastPassedBuild: int, cal: Calendar,
                     incidents: map<Day, int>, ghost ie: seq<Entry>)
    returns (r: map<Day, int>)
    requires AllCreated(run) && failed == Infos(run) && run != [] && incidents == Total(ie)
    ensures r == Total(ie + [IncidentOf(run, lastPassedBuild, cal)])
  {
    var firstFailed := failed[|failed| - 1];
    assert firstFailed.buildCreated == run[|run| - 1].createdAt.value;
    var redTime := lastPassedBuild - firstFailed.buildCreated;
    var day := cal(firstFailed.buildCreated);
    TotalSnoc(ie, IncidentOf(run, lastPassedBuild, cal));
    r := incidents[day := Get(incidents, day) + Minutes(redTime)];
  }

  lemma LastPassedAfterBatch(bs: seq<Build>, s: nat, scanned: nat, passed: int, start: int)
    requires AllCreated(bs) && s + scanned < |bs| && IsBuildPassed(bs[s + scanned])
    ensures LastPassed(bs[s..][..scanned + 1], passed) == LastPassed(bs[..s + scanned + 1], start)
  {
    assert bs[s..][..scanned + 1][scanned] == bs[s + scanned] == bs[..s + scanned + 1][s + scanned];
  }

  lemma UnfailedBefore(bs: seq<Build>, s: nat, k: nat, clock: Clock)
    requires s <= |bs| && k <= FirstFailed(bs[s..], clock)
    ensures Unfailed(bs, s, k, clock)
  {
    forall i | s <= i < s + k ensures !IsBuildFailed(bs[i], clock) {
      assert bs[i] == bs[s..][i - s];
    }
  }

  lemma LastPassedUpTo(bs: seq<Build>, s: nat, f: nat, end: nat, start: int, lastPassed: int, passed: int)
    requires AllCreated(bs) && end == s + f <= |bs|
    requires lastPassed == LastPassed(bs[..s], start) && passed == LastPassed(bs[s..][..f], lastPassed)
    ensures passed == LastPassed(bs[..end], start)
  {
    LastPassedConcat(bs[..s], bs[s..][..f], start);
    assert bs[..s] + bs[s..][..f] == bs[..end];
  }

  lemma FirstFailedFrom(bs: seq<Build>, s: nat, k: nat, from: nat, clock: Clock)
    requires from == s + k && Unfailed(bs, s, k, clock)
    ensures from + FirstFailed(bs[from..], clock) == s + FirstFailed(bs[s..], clock)
  {
    FirstFailedSkip(bs, s, k, clock);
  }

  lemma PassedUpToFailure(c: Setting, s: nat, lastPassed: int, passed: int, k: nat, from: nat, f: nat)
    requires AllCreated(c.builds) && s < |c.builds| && lastPassed == LastPassed(c.builds[..s], c.windowStart)
    requires f == FirstFailed(c.builds[s..], c.clock) && passed == LastPassed(c.builds[s..][..f], lastPassed)
    requires from == s + k < |c.builds| && k <= f
    ensures Unfailed(c.builds, s, k, c.clock) && PassedBefore(c, from, passed)
  {
    var end := s + f;
    UnfailedBefore(c.builds, s, k, c.clock);
    FirstFailedFrom(c.builds, s, k, from, c.clock);
    LastPassedUpTo(c.builds, s, f, end, c.windowStart, lastPassed, passed);
    PassedBeforeAt(c, from, end, passed);
  }

  lemma PassedBeforeAt(c: Setting, from: nat, end: nat, passed: int)
    requires AllCreated(c.builds) && from <= |c.builds| && end == from + FirstFailed(c.builds[from..], c.clock)
    requires end <= |c.builds| && passed == LastPassed(c.builds[..end], c.windowStart)
    ensures PassedBefore(c, from, passed)
  {
  }

  lemma DropDrop(bs: seq<Build>, s: nat, k: nat)
    requires s + k <= |bs|
    ensures bs[s..][k..] == bs[s + k..]
  {
  }

  // The failures of a batch that is not exceeded, each on its day.
  method AddFlakes(flakes: map<Day, int>, ghost fb: seq<Build>, ghost run: seq<Build>, failed: seq<CommitInfo>,
                   cal: Calendar)
    returns (r: map<Day, int>)
    requires AllCreated(fb) && AllCreated(run) && failed == Infos(run) && flakes == Total(Ones(fb, cal))
    ensures AllCreated(fb + run) && r == Total(Ones(fb + run, cal))
  {
    CreatedConcat(fb, run);
    OnesConcat(fb, run, cal);
    OnesOfCommits(run, cal);
    r := CountFlakes(flakes, Ones(fb, cal), failed, cal);
  }

  // Scans one batch and adds it to the counters.
  method ReportBatch(ghost c: Setting, ghost s: nat, scanBuilds: seq<Build>, lastPassedBuild: int,
                     threshold: int, clock: Clock, cal: Calendar,
                     flakes: map<Day, int>, incidents: map<Day, int>, ghost fb: seq<Build>, ghost ie: seq<Entry>)
    returns (flakes': map<Day, int>, incidents': map<Day, int>, scanned: nat,
             ghost fb': seq<Build>, ghost ie': seq<Entry>)
    requires Progress(c, s, fb, ie) && s < |c.builds| && scanBuilds == c.builds[s..]
    requires threshold == c.threshold && clock == c.clock && cal == c.cal && PassedBefore(c, s, lastPassedBuild)
    requires flakes == Total(Ones(fb, cal)) && incidents == Total(ie)
    ensures Progress(c, Next(c.builds, s), fb', ie')
    ensures flakes' == Total(Ones(fb', cal)) && incidents' == Total(ie')
    ensures s + scanned + 1 == Next(c.builds, s)
    ensures Next(c.builds, s) < |c.builds| ==> IsBuildPassed(c.builds[s + scanned])
  {
    var failed, exceeded;
    failed, exceeded, scanned := FindConsecutiveFailures(scanBuilds, threshold, clock);
    ghost var run := FirstRun(scanBuilds, clock);
    ProgressBatch(c, s, fb, ie, lastPassedBuild);
    flakes', incidents', fb', ie' := flakes, incidents, fb, ie;
    if exceeded {
      incidents' := AddIncident(run, failed, lastPassedBuild, cal, incidents, ie);
      ie' := ie + [IncidentOf(run, lastPassedBuild, cal)];
    } else {
      fb' := fb + run;
      flakes' := AddFlakes(flakes, fb, run, failed, cal);
    }
  }

  lemma SkipKeepsProgress(c: Setting, s: nat, lastPassed: int, passed: int, k: nat, from: nat, f: nat,
                          fb: seq<Build>, ie: seq<Entry>)
    requires Progress(c, s, fb, ie) && s < |c.builds| && lastPassed == LastPassed(c.builds[..s], c.windowStart)
    requires f == FirstFailed(c.builds[s..], c.clock) && passed == LastPassed(c.builds[s..][..f], lastPassed)
    requires from == s + k < |c.builds| && k <= f
    ensures Progress(c, from, fb, ie) && PassedBefore(c, from, passed)
  {
    PassedUpToFailure(c, s, lastPassed, passed, k, from, f);
    ProgressSkip(c, s, k, from, fb, ie);
  }

  // Moves the scan to the build before the first failed one.
  method SkipToFailure(ghost c: Setting, ghost s: nat, scanBuilds: seq<Build>, lastPassed: int, clock: Clock,
                       ghost fb: seq<Build>, ghost ie: seq<Entry>)
    returns (scan: seq<Build>, lastPassedBuild: int, ghost from: nat)
    requires Progress(c, s, fb, ie) && s < |c.builds| && scanBuilds == c.builds[s..] && clock == c.clock
    requires lastPassed == LastPassed(c.builds[..s], c.windowStart)
    ensures s <= from < |c.builds| && scan == c.builds[from..]
    ensures Progress(c, from, fb, ie) && PassedBefore(c, from, lastPassedBuild)
  {
    var firstFailedBuildIndex;
    firstFailedBuildIndex, lastPassedBuild := ScanToFailure(scanBuilds, clock, lastPassed);
    var skip := Max(firstFailedBuildIndex - 1, 0);
    from := s + skip;
    SkipKeepsProgress(c, s, lastPassed, lastPassedBuild, skip, from, FirstFailed(scanBuilds, clock), fb, ie);
    DropDrop(c.builds, s, skip);
    scan := scanBuilds[skip..];
  }

  // Moves the scan behind a finished batch.
  method LeaveBatch(ghost c: Setting, ghost s: nat, scanBuilds: seq<Build>, scanned: nat, lastPassed: int)
    returns (scan: seq<Build>, lastPassedBuild: int)
    requires AllCreated(c.builds) && s < |c.builds| && scanBuilds == c.builds[s..]
    requires s + scanned + 1 == Next(c.builds, s)
    requires Next(c.builds, s) < |c.builds| ==> IsBuildPassed(c.builds[s + scanned])
    ensures scan == c.builds[Next(c.builds, s)..]
    ensures Next(c.builds, s) < |c.builds| ==>
              lastPassedBuild == LastPassed(c.builds[..Next(c.builds, s)], c.windowStart)
  {
    DropDrop(c.builds, s, scanned + 1);
    if s + scanned + 1 < |c.builds| {
      LastPassedAfterBatch(c.builds, s, scanned, lastPassed, c.windowStart);
    }
    if |scanBuilds| > scanned {
      lastPassedBuild := PassedInBatch(scanBuilds[..scanned + 1], lastPassed);
      scan := scanBuilds[scanned + 1..];
    } else {
      lastPassedBuild := lastPassed;
      scan := [];
    }
  }

  lemma ReportEnd(c: Setting, flakes: map<Day, int>, incidents: map<Day, int>, fb: seq<Build>, ie: seq<Entry>)
    requires Progress(c, |c.builds|, fb, ie)
    requires flakes == Total(Ones(fb, c.cal)) && incidents == Total(ie)
    ensures var flaky := Flaky(Runs(c.builds, c.clock), c.threshold);
            AllCreated(flaky) && flakes == Total(Ones(flaky, c.cal))
    ensures incidents == Total(IncidentsFrom(c.builds, 0, c.threshold, c.clock, c.cal, c.windowStart))
  {
    ProgressEnd(c, fb, ie);
  }

  // One round of the outer loop: up to a failure, through its batch, and behind it.
  method ReportNext(ghost c: Setting, ghost s: nat, scanBuilds: seq<Build>, lastPassed: int,
                    threshold: int, clock: Clock, cal: Calendar,
                    flakes: map<Day, int>, incidents: map<Day, int>, ghost fb: seq<Build>, ghost ie: seq<Entry>)
    returns (ghost s': nat, scan: seq<Build>, lastPassedBuild: int,
             flakes': map<Day, int>, incidents': map<Day, int>, ghost fb': seq<Build>, ghost ie': seq<Entry>)
    requires Progress(c, s, fb, ie) && s < |c.builds| && scanBuilds == c.builds[s..]
    requires threshold == c.threshold && clock == c.clock && cal == c.cal
    requires lastPassed == LastPassed(c.builds[..s], c.windowStart)
    requires flakes == Total(Ones(fb, cal)) && incidents == Total(ie)
    ensures s < s' && Progress(c, s', fb', ie') && scan == c.builds[s'..]
    ensures s' < |c.builds| ==> lastPassedBuild == LastPassed(c.builds[..s'], c.windowStart)
    ensures flakes' == Total(Ones(fb', cal)) && incidents' == Total(ie')
  {
    ghost var from: nat;
    var batch, passed, scanned;
    batch, passed, from := SkipToFailure(c, s, scanBuilds, lastPassed, clock, fb, ie);
    flakes', incidents', scanned, fb', ie' :=
      ReportBatch(c, from, batch, passed, threshold, clock, cal, flakes, incidents, fb, ie);
    scan, lastPassedBuild := LeaveBatch(c, from, batch, scanned, passed);
    s' := Next(c.builds, from);
  }

  // The loops of the report.
  method ScanHistory(builds: seq<Build>, windowStart: int, threshold: int, clock: Clock, cal: Calendar)
    returns (totals: map<Day, int>, flakes: map<Day, int>, incidents: map<Day, int>)
    requires AllCreated(builds)
    ensures totals == Total(Ones(builds, cal))
    ensures var flaky := Flaky(Runs(builds, clock), threshold); AllCreated(flaky) && flakes == Total(Ones(flaky, cal))
    ensures incidents == Total(IncidentsFrom(builds, 0, threshold, clock, cal, windowStart))
  {
    totals := CountBuilds(builds, cal);
    flakes, incidents := map[], map[];
    var scanBuilds, lastPassedBuild := builds, windowStart;
    ghost var c := Setting(builds, threshold, clock, cal, windowStart);
    ghost var s: nat, fb, ie := 0, [], [];
    ProgressStart(c);
    assert builds[..0] == [];
    while |scanBuilds| > 0
      invariant Progress(c, s, fb, ie) && scanBuilds == builds[s..]
      invariant s < |builds| ==> lastPassedBuild == LastPassed(builds[..s], windowStart)
      invariant flakes == Total(Ones(fb, cal)) && incidents == Total(ie)
      decreases |scanBuilds|
    {
      s, scanBuilds, lastPassedBuild, flakes, incidents, fb, ie :=
        ReportNext(c, s, scanBuilds, lastPassedBuild, threshold, clock, cal, flakes, incidents, fb, ie);
    }
    ReportEnd(c, flakes, incidents, fb, ie);
  }

  lemma {:induction false} FlakyCreated(bs: seq<Build>, threshold: int, clock: Clock)
    requires AllCreated(bs)
    ensures AllCreated(Flaky(Runs(bs, clock), threshold))
    decreases |bs|
  {
    if bs != [] {
      FirstRunCreated(bs, clock);
      FlakyCreated(Later(bs), threshold, clock);
      assert Runs(bs, clock)[0] == FirstRun(bs, clock) && Runs(bs, clock)[1..] == Runs(Later(bs), clock);
    }
  }

  /** Nothing is lost and nothing counted twice: the flake counters together with the sizes of the
      exceeded series hold every non-scheduled, non-passed failed build exactly once, and the daily
      totals every build. */
  lemma HistoryConserves(builds: seq<Build>, threshold: int, clock: Clock, cal: Calendar)
    requires AllCreated(builds)
    ensures Sum(Total(Ones(builds, cal))) == |builds|
    ensures var runs := Runs(builds, clock);
            AllCreated(Flaky(runs, threshold)) &&
            Sum(Total(Ones(Flaky(runs, threshold), cal))) + ExceededSize(runs, threshold) == |Counted(builds, clock)|
  {
    var runs := Runs(builds, clock);
    var flaky := Flaky(runs, threshold);
    FlakyCreated(builds, threshold, clock);
    SumTotal(Ones(builds, cal));
    OnesAmount(Ones(builds, cal));
    SumTotal(Ones(flaky, cal));
    OnesAmount(Ones(flaky, cal));
    SizesAdd(runs, threshold);
    RunsPartitionFailures(builds, clock);
  }
}
