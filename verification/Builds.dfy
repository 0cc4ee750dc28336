/**
  Which builds fail, and the decision to lock the branch (dev/buildchecker/checker.go,
  dev/buildchecker/failures.go).  Builds run from newest to oldest.  The clock is the fixed
  parameter `now`; times and durations are integers.
 */
module Builds {
  import opened Options

  datatype Author = Author(name: string, email: string)

  // Pointers of the source are options.
  datatype Build = Build(number: Option<int>, commit: Option<string>, author: Option<Author>, webURL: Option<string>,
                         source: Option<string>, state: Option<string>, createdAt: Option<int>, finishedAt: Option<int>)

  datatype CommitInfo = CommitInfo(commit: string, author: string, buildNumber: int, buildURL: string,
                                   buildCreated: int, authorSlackID: string)

  // What decides whether a build failed: the timeout and the present time.
  datatype Clock = Clock(timeout: int, now: int)

  const ZERO_TIME: int := 0

  predicate IsBuildScheduled(b: Build) {
    b.source == Some("scheduled")
  }

  predicate IsBuildPassed(b: Build) {
    b.state == Some("passed")
  }

  predicate IsBuildFailed(b: Build, clock: Clock) {
    || b.state == Some("failed") || b.state == Some("cancelled")
    || (clock.timeout > 0 && b.createdAt.Some? && b.finishedAt.None? && clock.now > b.createdAt.value + clock.timeout)
  }

  // A build that ends a series, and one that counts as a failure.
  predicate Stops(b: Build) {
    !IsBuildScheduled(b) && IsBuildPassed(b)
  }

  predicate Counts(b: Build, clock: Clock) {
    !IsBuildScheduled(b) && !IsBuildPassed(b) && IsBuildFailed(b, clock)
  }

  function Max(x: int, y: int): int {
    if x < y then y else x
  }

  function MaybeString(s: Option<string>): string {
    match s case Some(v) => v case None => ""
  }

  function Info(b: Build): CommitInfo {
    CommitInfo(MaybeString(b.commit),
               match b.author case Some(a) => a.name + " (" + a.email + ")" case None => "",
               match b.number case Some(n) => n case None => 0,
               if b.number.Some? then MaybeString(b.webURL) else "",
               match b.createdAt case Some(t) => t case None => ZERO_TIME,
               "")
  }

  function Infos(bs: seq<Build>): (r: seq<CommitInfo>)
    ensures |r| == |bs| && forall i :: 0 <= i < |bs| ==> r[i] == Info(bs[i])
  {
    if bs == [] then [] else [Info(bs[0])] + Infos(bs[1..])
  }

  /** ---- The simple rule ---- */

  // The builds that count, in order.
  function Counted(bs: seq<Build>, clock: Clock): seq<Build> {
    if bs == [] then [] else (if Counts(bs[0], clock) then [bs[0]] else []) + Counted(bs[1..], clock)
  }

  // Index of the first build that ends a series, or the length.
  function StopIndex(bs: seq<Build>): (k: nat)
    ensures k <= |bs| && (k < |bs| ==> Stops(bs[k])) && forall i :: 0 <= i < k ==> !Stops(bs[i])
  {
    if bs == [] || Stops(bs[0]) then 0 else 1 + StopIndex(bs[1..])
  }

  // The failures before the first non-scheduled passed build.
  function FirstRun(bs: seq<Build>, clock: Clock): seq<Build> {
    Counted(bs[..StopIndex(bs)], clock)
  }

  // The indices of the builds that count among those from lo up to but not including hi.
  function CountedIndices(bs: seq<Build>, lo: nat, hi: nat, clock: Clock): (idx: seq<nat>)
    requires lo <= hi <= |bs|
    ensures forall k :: 0 <= k < |idx| ==> lo <= idx[k] < hi
  {
    if lo == hi then []
    else CountedIndices(bs, lo, hi - 1, clock) + if Counts(bs[hi - 1], clock) then [hi - 1] else []
  }

  /** They are exactly those indices, in ascending order. */
  lemma {:induction false} CountedIndicesExact(bs: seq<Build>, lo: nat, hi: nat, clock: Clock)
    requires lo <= hi <= |bs|
    ensures var idx := CountedIndices(bs, lo, hi, clock);
            && (forall i, j :: 0 <= i < j < |idx| ==> idx[i] < idx[j])
            && (forall i: nat :: i in idx <==> lo <= i < hi && Counts(bs[i], clock))
  {
    if lo < hi {
      CountedIndicesExact(bs, lo, hi - 1, clock);
    }
  }

  // A run is exceeded once it has a failure and reaches the threshold.
  predicate Exceeds<T>(run: seq<T>, threshold: int) {
    |run| >= 1 && |run| >= threshold
  }

  lemma {:induction false} CountedConcat(a: seq<Build>, b: seq<Build>, clock: Clock)
    ensures Counted(a + b, clock) == Counted(a, clock) + Counted(b, clock)
  {
    if a == [] {
      assert a + b == b;
    } else {
      assert (a + b)[1..] == a[1..] + b;
      CountedConcat(a[1..], b, clock);
    }
  }

  lemma CountedNext(bs: seq<Build>, i: nat, clock: Clock)
    requires i < |bs|
    ensures Counted(bs[..i + 1], clock) == Counted(bs[..i], clock) + if Counts(bs[i], clock) then [bs[i]] else []
  {
    assert bs[..i + 1] == bs[..i] + [bs[i]];
    CountedConcat(bs[..i], [bs[i]], clock);
    assert [bs[i]][1..] == [];
  }

  lemma {:induction false} CountedByIndex(bs: seq<Build>, lo: nat, hi: nat, clock: Clock)
    requires lo <= hi <= |bs|
    ensures var idx, run := CountedIndices(bs, lo, hi, clock), Counted(bs[lo..hi], clock);
            |run| == |idx| && forall k :: 0 <= k < |idx| ==> run[k] == bs[idx[k]]
  {
    if lo < hi {
      CountedByIndex(bs, lo, hi - 1, clock);
      var part := bs[lo..hi];
      CountedNext(part, hi - 1 - lo, clock);
      assert part[..hi - 1 - lo] == bs[lo..hi - 1] && part[..hi - lo] == part && part[hi - 1 - lo] == bs[hi - 1];
    }
  }

  // The commits of the first run, told by the indices of its builds.
  lemma FirstRunByIndex(bs: seq<Build>, clock: Clock)
    ensures var idx, run := CountedIndices(bs, 0, StopIndex(bs), clock), FirstRun(bs, clock);
            |run| == |idx| && forall k :: 0 <= k < |idx| ==> run[k] == bs[idx[k]]
  {
    CountedByIndex(bs, 0, StopIndex(bs), clock);
    assert bs[0..StopIndex(bs)] == bs[..StopIndex(bs)];
  }

  lemma RunEnds(bs: seq<Build>, i: nat, clock: Clock)
    requires i <= |bs| && (i < |bs| ==> Stops(bs[i])) && forall j :: 0 <= j < i ==> !Stops(bs[j])
    ensures StopIndex(bs) == i && FirstRun(bs, clock) == Counted(bs[..i], clock)
  {
  }

  lemma InfosNext(run: seq<Build>, b: Build)
    ensures Infos(run + [b]) == Infos(run) + [Info(b)]
  {
  }

  /** ---- Scanning one series ---- */

  method Describe(build: Build) returns (commit: CommitInfo)
    ensures commit == Info(build)
  {
    var author := "";
    if build.author.Some? {
      author := build.author.value.name + " (" + build.author.value.email + ")";
    }
    commit := CommitInfo(MaybeString(build.commit), author, 0, "", ZERO_TIME, "");
    if build.number.Some? {
      commit := commit.(buildNumber := build.number.value, buildURL := MaybeString(build.webURL));
    }
    if build.createdAt.Some? {
      commit := commit.(buildCreated := build.createdAt.value);
    }
  }

  method FindConsecutiveFailures(builds: seq<Build>, threshold: int, clock: Clock)
    returns (failedCommits: seq<CommitInfo>, thresholdExceeded: bool, buildsScanned: nat)
    ensures failedCommits == Infos(FirstRun(builds, clock))
    ensures thresholdExceeded <==> Exceeds(FirstRun(builds, clock), threshold)
    ensures buildsScanned == if StopIndex(builds) < |builds| || builds == [] then StopIndex(builds) else |builds| - 1
  {
    failedCommits, thresholdExceeded, buildsScanned := [], false, 0;
    ghost var run: seq<Build> := [];
    var consecutiveFailures := 0;
    for i := 0 to |builds|
      invariant run == Counted(builds[..i], clock) && failedCommits == Infos(run) && consecutiveFailures == |run|
      invariant thresholdExceeded <==> Exceeds(run, threshold)
      invariant forall j :: 0 <= j < i ==> !Stops(builds[j])
      invariant buildsScanned == if i == 0 then 0 else i - 1
    {
      buildsScanned := i;
      var build := builds[i];
      CountedNext(builds, i, clock);
      if IsBuildScheduled(build) {
        continue;
      }
      if IsBuildPassed(build) {
        RunEnds(builds, i, clock);
        return;
      } else if !IsBuildFailed(build, clock) {
        continue;
      }
      consecutiveFailures := consecutiveFailures + 1;
      InfosNext(run, build);
      run := run + [build];
      var commit := Describe(build);
      failedCommits := failedCommits + [commit];
      if consecutiveFailures >= threshold {
        thresholdExceeded := true;
      }
    }
    RunEnds(builds, |builds|, clock);
  }

  /** ---- The lock decision ---- */

  // Neither a failure nor the end of a series.
  predicate Neutral(b: Build, clock: Clock) {
    IsBuildScheduled(b) || (!IsBuildPassed(b) && !IsBuildFailed(b, clock))
  }

  /** Starting the scan later gives the same failures when only neutral builds are skipped. */
  lemma {:induction false} SkipNeutral(bs: seq<Build>, k: nat, clock: Clock)
    requires k <= |bs| && forall i :: 0 <= i < k ==> Neutral(bs[i], clock)
    ensures StopIndex(bs) == k + StopIndex(bs[k..])
    ensures FirstRun(bs[k..], clock) == FirstRun(bs, clock)
    decreases k
  {
    if k == 0 {
      assert bs[0..] == bs;
    } else {
      SkipNeutral(bs[1..], k - 1, clock);
      assert bs[1..][k - 1..] == bs[k..];
      var p := StopIndex(bs);
      assert p == 1 + StopIndex(bs[1..]);
      assert bs[..p][1..] == bs[1..][..p - 1];
    }
  }

  // The newest build that is not neutral.
  function FirstMeaningful(bs: seq<Build>, clock: Clock): Option<Build> {
    if bs == [] then None
    else if !Neutral(bs[0], clock) then Some(bs[0])
    else FirstMeaningful(bs[1..], clock)
  }

  datatype Action = Lock(commits: seq<CommitInfo>) | Unlock

  datatype CheckResults = CheckResults(lockBranch: bool, action: Action, failedCommits: seq<CommitInfo>)

  datatype CheckError = LockBranch | UnlockBranch

  // The last n commits of the list, which are the oldest.
  function Oldest(commits: seq<CommitInfo>, n: nat): seq<CommitInfo> {
    if |commits| > n then commits[|commits| - n..] else commits
  }

  // The Slack id of a commit's author, when it can be found.
  type Resolver = string -> Option<string>

  function Annotated(c: CommitInfo, resolve: Resolver): CommitInfo {
    match resolve(c.commit) case Some(id) => c.(authorSlackID := id) case None => c
  }

  function AnnotatedAll(cs: seq<CommitInfo>, resolve: Resolver): (r: seq<CommitInfo>)
    ensures |r| == |cs| && forall i :: 0 <= i < |cs| ==> r[i] == Annotated(cs[i], resolve)
  {
    if cs == [] then [] else [Annotated(cs[0], resolve)] + AnnotatedAll(cs[1..], resolve)
  }

  // The loop that fills in the Slack ids.
  method AnnotateFailures(commits: seq<CommitInfo>, resolve: Resolver) returns (failed: seq<CommitInfo>)
    ensures failed == AnnotatedAll(commits, resolve)
  {
    failed := commits;
    for i := 0 to |failed|
      invariant |failed| == |commits|
      invariant forall j :: 0 <= j < i ==> failed[j] == Annotated(commits[j], resolve)
      invariant forall j :: i <= j < |failed| ==> failed[j] == commits[j]
    {
      var teammate := resolve(failed[i].commit);
      if teammate.None? {
        continue;
      }
      failed := failed[i := failed[i].(authorSlackID := teammate.value)];
    }
  }

  // The simple rule for the outcome, given all failures of the current series.
  function Decision(failures: seq<CommitInfo>, threshold: nat, resolve: Resolver, lockOk: bool, unlockOk: bool)
    : Result<CheckResults, CheckError>
  {
    if Exceeds(failures, threshold) then
      var reported := AnnotatedAll(Oldest(failures, threshold), resolve);
      if lockOk then Ok(CheckResults(true, Lock(reported), reported)) else Err(LockBranch)
    else if unlockOk then Ok(CheckResults(false, Unlock, failures)) else Err(UnlockBranch)
  }

  // The scan for the newest build with a meaningful state.
  method FirstFailedIndex(builds: seq<Build>, clock: Clock) returns (passed: bool, index: int)
    requires var b := FirstMeaningful(builds, clock); b.Some? ==> b.value.number.Some?
    ensures passed ==> FirstRun(builds, clock) == [] && Infos(FirstRun(builds, clock)) == []
    ensures 0 <= index <= |builds| && forall j :: 0 <= j < index ==> Neutral(builds[j], clock)
  {
    index := 0;
    for i := 0 to |builds|
      invariant index == 0
      invariant forall j :: 0 <= j < i ==> Neutral(builds[j], clock)
    {
      var b := builds[i];
      if IsBuildScheduled(b) {
        continue;
      }
      if IsBuildPassed(b) {
        SkipNeutral(builds, i, clock);
        assert StopIndex(builds[i..]) == 0;
        return true, 0;
      }
      if IsBuildFailed(b, clock) {
        index := i;
        break;
      }
    }
    passed := false;
  }

  // The last m failures of the series with the given indices, with their authors looked up.
  predicate ReportsOldest(commits: seq<CommitInfo>, builds: seq<Build>, idx: seq<nat>, m: nat, resolve: Resolver)
    requires m <= |idx| && forall k :: 0 <= k < |idx| ==> idx[k] < |builds|
  {
    && |commits| == m
    && forall k :: 0 <= k < m ==>
         var info := Info(builds[idx[|idx| - m + k]]);
         commits[k] == match resolve(info.commit) case Some(id) => info.(authorSlackID := id) case None => info
  }

  // What the check answers when the failures of the current series have the given indices.
  predicate Answers(r: Result<CheckResults, CheckError>, builds: seq<Build>, idx: seq<nat>, threshold: nat,
                    resolve: Resolver, lockOk: bool, unlockOk: bool)
    requires forall k :: 0 <= k < |idx| ==> idx[k] < |builds|
  {
    var exceeded := |idx| >= 1 && |idx| >= threshold;
    && (r == Err(LockBranch) <==> exceeded && !lockOk)
    && (r == Err(UnlockBranch) <==> !exceeded && !unlockOk)
    && (r.Ok? ==> (r.value.lockBranch <==> exceeded) && (r.value.action.Lock? <==> exceeded))
    && (r.Ok? && exceeded ==>
          && r.value.action == Lock(r.value.failedCommits)
          && ReportsOldest(r.value.failedCommits, builds, idx, if |idx| > threshold then threshold else |idx|, resolve))
    && (r.Ok? && !exceeded ==>
          && r.value.action == Unlock && |r.value.failedCommits| == |idx|
          && forall k :: 0 <= k < |idx| ==> r.value.failedCommits[k] == Info(builds[idx[k]]))
  }

  lemma LockAnswers(failures: seq<CommitInfo>, builds: seq<Build>, idx: seq<nat>, threshold: nat, resolve: Resolver)
    requires |failures| == |idx| && |idx| >= threshold
    requires forall k :: 0 <= k < |idx| ==> idx[k] < |builds| && failures[k] == Info(builds[idx[k]])
    ensures ReportsOldest(AnnotatedAll(Oldest(failures, threshold), resolve), builds, idx,
                          if |idx| > threshold then threshold else |idx|, resolve)
  {
  }

  lemma DecisionAnswers(failures: seq<CommitInfo>, builds: seq<Build>, idx: seq<nat>, threshold: nat, resolve: Resolver,
                        lockOk: bool, unlockOk: bool)
    requires |failures| == |idx|
    requires forall k :: 0 <= k < |idx| ==> idx[k] < |builds| && failures[k] == Info(builds[idx[k]])
    ensures Answers(Decision(failures, threshold, resolve, lockOk, unlockOk), builds, idx, threshold, resolve,
                    lockOk, unlockOk)
  {
    if |idx| >= threshold {
      LockAnswers(failures, builds, idx, threshold, resolve);
    }
  }

  // The scan from the sliced start finds what a scan of the whole list would.
  method ScanFrom(builds: seq<Build>, start: nat, threshold: int, clock: Clock)
    returns (failed: seq<CommitInfo>, exceeded: bool)
    requires start <= |builds| && forall i :: 0 <= i < start ==> Neutral(builds[i], clock)
    ensures failed == Infos(FirstRun(builds, clock)) && (exceeded <==> Exceeds(failed, threshold))
  {
    SkipNeutral(builds, start, clock);
    var buildsScanned;
    failed, exceeded, buildsScanned := FindConsecutiveFailures(builds[start..], threshold, clock);
  }

  // Trims the list to its oldest entries and looks up their authors.
  method OldestFailures(commits: seq<CommitInfo>, threshold: nat, resolve: Resolver) returns (failed: seq<CommitInfo>)
    ensures failed == AnnotatedAll(Oldest(commits, threshold), resolve)
  {
    failed := commits;
    if |failed| > threshold {
      failed := failed[|failed| - threshold..];
    }
    failed := AnnotateFailures(failed, resolve);
  }

  // The check against the simple rule.
  method Decide(builds: seq<Build>, threshold: nat, clock: Clock, resolve: Resolver, lockOk: bool, unlockOk: bool)
    returns (r: Result<CheckResults, CheckError>)
    requires var b := FirstMeaningful(builds, clock); b.Some? ==> b.value.number.Some?
    ensures r == Decision(Infos(FirstRun(builds, clock)), threshold, resolve, lockOk, unlockOk)
  {
    var passed, firstFailedBuildIndex := FirstFailedIndex(builds, clock);
    if passed {
      return if unlockOk then Ok(CheckResults(false, Unlock, [])) else Err(UnlockBranch);
    }
    var start := Max(firstFailedBuildIndex - 1, 0);
    var failed, exceeded := ScanFrom(builds, start, threshold, clock);
    if !exceeded {
      return if unlockOk then Ok(CheckResults(false, Unlock, failed)) else Err(UnlockBranch);
    }
    failed := OldestFailures(failed, threshold, resolve);
    return if lockOk then Ok(CheckResults(true, Lock(failed), failed)) else Err(LockBranch);
  }

  lemma FailuresByIndex(builds: seq<Build>, clock: Clock)
    ensures var idx, failures := CountedIndices(builds, 0, StopIndex(builds), clock), Infos(FirstRun(builds, clock));
            |failures| == |idx| && forall k :: 0 <= k < |idx| ==> failures[k] == Info(builds[idx[k]])
  {
    FirstRunByIndex(builds, clock);
  }

  /** The branch is locked exactly when the failures before the first non-scheduled passed build of the
      whole list are at least one and at least the threshold; the lock then reports the oldest
      `threshold` of them in order, and otherwise the branch is unlocked and all are reported.  Each
      error arises exactly when the call it names fails.  The source dereferences the number of the
      newest meaningful build, and slices by the threshold. */
  method CheckBuilds(builds: seq<Build>, threshold: nat, clock: Clock, resolve: Resolver, lockOk: bool, unlockOk: bool)
    returns (r: Result<CheckResults, CheckError>)
    requires var b := FirstMeaningful(builds, clock); b.Some? ==> b.value.number.Some?
    ensures Answers(r, builds, CountedIndices(builds, 0, StopIndex(builds), clock), threshold, resolve,
                    lockOk, unlockOk)
  {
    r := Decide(builds, threshold, clock, resolve, lockOk, unlockOk);
    FailuresByIndex(builds, clock);
    DecisionAnswers(Infos(FirstRun(builds, clock)), builds, CountedIndices(builds, 0, StopIndex(builds), clock),
                    threshold, resolve, lockOk, unlockOk);
  }

  /** A locked branch reports a non-empty list for a positive threshold, of exactly that many commits,
      and they are the last ones of the series. */
  lemma LockReportsOldest(builds: seq<Build>, threshold: nat, clock: Clock, resolve: Resolver, unlockOk: bool)
    requires threshold >= 1 && |FirstRun(builds, clock)| >= threshold
    ensures var r := Decision(Infos(FirstRun(builds, clock)), threshold, resolve, true, unlockOk);
            var run := FirstRun(builds, clock);
            && r.Ok? && r.value.lockBranch && |r.value.failedCommits| == threshold
            && forall i :: 0 <= i < threshold ==>
                 r.value.failedCommits[i] == Annotated(Info(run[|run| - threshold + i]), resolve)
  {
  }
}
