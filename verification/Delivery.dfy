/**
  Progress of the configuration protocol: with the source left alone every update ends, every
  Write returns, and every watcher ends up with the newest configuration that was fetched.
 */
module Delivery {
  import opened SiteConfig
  import opened Protocol

  // Steps that need nothing from outside.  Left out are edits of the source, new watchers and
  // writers, the timer, and a second read inside one run of f.
  predicate Internal(s: State, step: Step) {
    match step
    case SourceEdit(_) => false
    case Register => false
    case WriteSource(_, _) => false
    case Timer => false
    case Look(i) => i < |s.watchers| && s.watchers[i].phase == Running
    case _ => true
  }

  // A further read in the same run of f, which changes nothing about who is still to run.
  predicate Reread(s: State, step: Step) {
    step.Look? && step.i < |s.watchers| && s.watchers[step.i].phase == Looked
  }

  predicate CanSettle(s: State, steps: seq<Step>, unmarshal: Unmarshal)
    decreases |steps|
  {
    steps == [] ||
    (Enabled(s, steps[0], unmarshal) && (Internal(s, steps[0]) || Reread(s, steps[0])) &&
     CanSettle(Apply(s, steps[0], unmarshal), steps[1..], unmarshal))
  }

  // The steps of a run that are not second reads.
  function Moves(s: State, steps: seq<Step>, unmarshal: Unmarshal): nat
    requires CanSettle(s, steps, unmarshal)
    decreases |steps|
  {
    if steps == [] then 0
    else (if Internal(s, steps[0]) then 1 else 0) + Moves(Apply(s, steps[0], unmarshal), steps[1..], unmarshal)
  }

  // No internal step is left.
  ghost predicate AtRest(s: State, unmarshal: Unmarshal) {
    forall step :: Internal(s, step) ==> !Enabled(s, step, unmarshal)
  }

  /** ---- The rank ---- */

  // Work left in one watcher, and in all of them.
  function WatcherRank(w: Watcher): nat {
    (match w.phase case Parked => 0 case Looked => 1 case Running => 2 case Waiting => 3)
    + if w.token then 3 else 0
  }

  function WatchersRank(ws: seq<Watcher>): nat {
    if ws == [] then 0 else WatchersRank(ws[..|ws| - 1]) + WatcherRank(ws[|ws| - 1])
  }

  // A notify pass may add one token, worth 3, to each watcher still ahead.
  function UpdaterRank(s: State): nat
    requires NoLostWakeUp(s)
  {
    match s.updater
    case Idle => 0
    case Fetching(_) => 4 * |s.watchers| + 5
    case Fetched(_, _, _) => 4 * |s.watchers| + 4
    case Locking(_, _) => 4 * |s.watchers| + 3
    case Notifying(_, _, next) => 4 * (|s.watchers| - next) + 2
    case Closing(_, _) => 1
  }

  // Each writer that has not sent its channel yet will cause one update, worth `cost`.
  function WritersRank(ws: seq<Writer>, cost: nat): nat {
    if ws == [] then 0 else WritersRank(ws[..|ws| - 1], cost) + if ws[|ws| - 1].Written? then cost else 0
  }

  function Rank(s: State): nat
    requires NoLostWakeUp(s)
  {
    WatchersRank(s.watchers) + UpdaterRank(s)
    + (if s.buffer.Some? then 4 * |s.watchers| + 6 else 0)
    + WritersRank(s.writers, 4 * |s.watchers| + 7)
  }

  lemma {:induction false} WatchersRankUpdate(ws: seq<Watcher>, i: nat, w: Watcher)
    requires i < |ws|
    ensures WatchersRank(ws[i := w]) == WatchersRank(ws) - WatcherRank(ws[i]) + WatcherRank(w)
  {
    var n := |ws| - 1;
    if i == n {
      assert ws[i := w][..n] == ws[..n];
    } else {
      assert ws[i := w][..n] == ws[..n][i := w];
      WatchersRankUpdate(ws[..n], i, w);
    }
  }

  lemma {:induction false} WritersRankUpdate(ws: seq<Writer>, i: nat, w: Writer, cost: nat)
    requires i < |ws| && !w.Written?
    ensures WritersRank(ws[i := w], cost) == WritersRank(ws, cost) - if ws[i].Written? then cost else 0
  {
    var n := |ws| - 1;
    if i == n {
      assert ws[i := w][..n] == ws[..n];
    } else {
      assert ws[i := w][..n] == ws[..n][i := w];
      WritersRankUpdate(ws[..n], i, w, cost);
    }
  }

  // The watcher, and the writer, that a step changes, or the number of them.
  function WatcherOf(s: State, step: Step): nat {
    match step
    case Begin(i) => i
    case Look(i) => i
    case Finish(i) => i
    case Wake(i) => i
    case Notify => if s.updater.Notifying? then s.updater.next else |s.watchers|
    case _ => |s.watchers|
  }

  function WriterOf(s: State, step: Step): nat {
    match step
    case Send(w) => w
    case Close => if s.updater.Closing? && s.updater.signal.Some? then s.updater.signal.value else |s.writers|
    case _ => |s.writers|
  }

  lemma StepChanges(s: State, step: Step, unmarshal: Unmarshal)
    requires Inv(s, unmarshal) && Enabled(s, step, unmarshal) && (Internal(s, step) || Reread(s, step))
    ensures var s' := Apply(s, step, unmarshal); var i := WatcherOf(s, step); var w := WriterOf(s, step);
            && |s'.watchers| == |s.watchers| && |s'.writers| == |s.writers|
            && s'.watchers == (if i < |s.watchers| then s.watchers[i := s'.watchers[i]] else s.watchers)
            && s'.writers == (if w < |s.writers| then s.writers[w := s'.writers[w]] else s.writers)
            && (w < |s.writers| ==> !s'.writers[w].Written? && (s.writers[w].Written? <==> step.Send?))
            && s'.history == s.history
  {
    if WriterOf(s, step) < |s.writers| {
      assert WriterAgrees(s, WriterOf(s, step));
    }
  }

  lemma RankParts(s: State, step: Step, unmarshal: Unmarshal)
    requires Inv(s, unmarshal) && Enabled(s, step, unmarshal) && (Internal(s, step) || Reread(s, step))
    ensures var s' := Apply(s, step, unmarshal); var i := WatcherOf(s, step); var cost := 4 * |s.watchers| + 7;
            && |s'.watchers| == |s.watchers|
            && WatchersRank(s'.watchers) ==
               WatchersRank(s.watchers) +
               (if i < |s.watchers| then WatcherRank(s'.watchers[i]) - WatcherRank(s.watchers[i]) else 0)
            && WritersRank(s'.writers, cost) == WritersRank(s.writers, cost) - if step.Send? then cost else 0
  {
    StepChanges(s, step, unmarshal);
    var s' := Apply(s, step, unmarshal);
    var i, w := WatcherOf(s, step), WriterOf(s, step);
    if i < |s.watchers| {
      WatchersRankUpdate(s.watchers, i, s'.watchers[i]);
    }
    if w < |s.writers| {
      WritersRankUpdate(s.writers, w, s'.writers[w], 4 * |s.watchers| + 7);
    }
  }

  predicate ByWatcher(step: Step) {
    step.Begin? || step.Look? || step.Finish? || step.Wake?
  }

  lemma WatcherStepRank(s: State, step: Step, unmarshal: Unmarshal)
    requires Inv(s, unmarshal) && Enabled(s, step, unmarshal) && (Internal(s, step) || Reread(s, step))
    requires ByWatcher(step) && NoLostWakeUp(Apply(s, step, unmarshal))
    ensures if Internal(s, step) then Rank(Apply(s, step, unmarshal)) < Rank(s)
            else Rank(Apply(s, step, unmarshal)) == Rank(s)
  {
    RankParts(s, step, unmarshal);
  }

  lemma UpdaterStepRank(s: State, step: Step, unmarshal: Unmarshal)
    requires Inv(s, unmarshal) && Enabled(s, step, unmarshal) && Internal(s, step)
    requires !ByWatcher(step) && NoLostWakeUp(Apply(s, step, unmarshal))
    ensures Rank(Apply(s, step, unmarshal)) < Rank(s)
  {
    RankParts(s, step, unmarshal);
  }

  /** Every internal step lowers the rank, and a second read leaves it, so runs of them end. */
  lemma InternalStepDecreases(s: State, step: Step, unmarshal: Unmarshal)
    requires Inv(s, unmarshal) && Enabled(s, step, unmarshal) && (Internal(s, step) || Reread(s, step))
    ensures Inv(Apply(s, step, unmarshal), unmarshal)
    ensures if Internal(s, step) then Rank(Apply(s, step, unmarshal)) < Rank(s)
            else Rank(Apply(s, step, unmarshal)) == Rank(s)
  {
    InvStep(s, step, unmarshal);
    if ByWatcher(step) {
      WatcherStepRank(s, step, unmarshal);
    } else {
      UpdaterStepRank(s, step, unmarshal);
    }
  }

  /** ---- Coming to rest ---- */

  lemma UpdaterRests(s: State, unmarshal: Unmarshal)
    requires Inv(s, unmarshal) && AtRest(s, unmarshal)
    ensures s.updater.Idle? && s.buffer.None?
  {
    assert Internal(s, FetchFails) && Internal(s, Publish) && Internal(s, Lock) && Internal(s, Notify);
    assert Internal(s, Unlock) && Internal(s, Close) && Internal(s, Prompt);
  }

  lemma WritersRest(s: State, unmarshal: Unmarshal)
    requires Inv(s, unmarshal) && AtRest(s, unmarshal)
    ensures forall w :: w in s.writers ==> w.Returned?
  {
    UpdaterRests(s, unmarshal);
    forall i | 0 <= i < |s.writers| ensures s.writers[i].Returned? {
      assert WriterAgrees(s, i);
      assert Internal(s, Send(i));
    }
  }

  lemma WatchersRest(s: State, unmarshal: Unmarshal)
    requires Inv(s, unmarshal) && AtRest(s, unmarshal) && s.store.ready
    ensures forall w :: w in s.watchers ==> w.phase == Parked && Fresh(s, w)
  {
    UpdaterRests(s, unmarshal);
    forall i | 0 <= i < |s.watchers| ensures s.watchers[i].phase == Parked && Fresh(s, s.watchers[i]) {
      assert Covered(s, i);
      assert Internal(s, Begin(i)) && Internal(s, Finish(i)) && Internal(s, Wake(i));
    }
  }

  lemma {:induction false} SettleRun(s: State, steps: seq<Step>, unmarshal: Unmarshal)
    requires Inv(s, unmarshal) && CanSettle(s, steps, unmarshal)
    ensures CanRun(s, steps, unmarshal)
    ensures Inv(RunSteps(s, steps, unmarshal), unmarshal)
    ensures Moves(s, steps, unmarshal) + Rank(RunSteps(s, steps, unmarshal)) <= Rank(s)
    ensures RunSteps(s, steps, unmarshal).history == s.history
    decreases |steps|
  {
    if steps != [] {
      InternalStepDecreases(s, steps[0], unmarshal);
      StepChanges(s, steps[0], unmarshal);
      SettleRun(Apply(s, steps[0], unmarshal), steps[1..], unmarshal);
    }
  }

  /** Under any scheduling, once the source is left alone at most Rank(s) steps are left.  Where none
      is, every update is over, every Write has returned, and every watcher is blocked and got
      exactly the configuration the store serves on every read of its last run. */
  lemma SettlesFresh(s: State, steps: seq<Step>, unmarshal: Unmarshal)
    requires Reachable(s, unmarshal) && CanSettle(s, steps, unmarshal)
    ensures NoLostWakeUp(s) && Moves(s, steps, unmarshal) <= Rank(s)
    ensures CanRun(s, steps, unmarshal)
    ensures var s' := RunSteps(s, steps, unmarshal);
            AtRest(s', unmarshal) ==>
              && s'.updater.Idle? && s'.buffer.None? && s'.history == s.history
              && (forall w :: w in s'.writers ==> w.Returned?)
              && (s'.store.ready ==> forall w :: w in s'.watchers ==> w.phase == Parked && !w.token && Fresh(s', w))
  {
    ReachableInv(s, unmarshal);
    SettleRun(s, steps, unmarshal);
    var s' := RunSteps(s, steps, unmarshal);
    if AtRest(s', unmarshal) {
      UpdaterRests(s', unmarshal);
      WritersRest(s', unmarshal);
      if s'.store.ready {
        WatchersRest(s', unmarshal);
        forall i | 0 <= i < |s'.watchers| ensures !s'.watchers[i].token {
          assert s'.watchers[i] in s'.watchers && Internal(s', Wake(i));
        }
      }
    }
  }

  /** ---- From the source to the watchers ---- */

  // The newest text of the source has been fetched.
  predicate Carried(s: State) {
    s.rawVersion == |s.history| || (s.updater.Fetched? && s.updater.version == |s.history|)
  }

  lemma CarriedStep(s: State, step: Step, unmarshal: Unmarshal)
    requires Inv(s, unmarshal) && Enabled(s, step, unmarshal) && (Internal(s, step) || Reread(s, step))
    requires s.history[|s.history| - 1].site != "" && (Carried(s) || step == Fetch)
    ensures Carried(Apply(s, step, unmarshal))
  {
    InvStep(s, step, unmarshal);
    StoreAgreesStep(s, step, unmarshal);
  }

  lemma {:induction false} CarriedRun(s: State, steps: seq<Step>, unmarshal: Unmarshal)
    requires Inv(s, unmarshal) && CanSettle(s, steps, unmarshal) && CanRun(s, steps, unmarshal)
    requires s.history[|s.history| - 1].site != "" && (Carried(s) || Fetch in steps)
    ensures Carried(RunSteps(s, steps, unmarshal))
    decreases |steps|
  {
    if steps != [] {
      InvStep(s, steps[0], unmarshal);
      StepChanges(s, steps[0], unmarshal);
      var s1 := Apply(s, steps[0], unmarshal);
      if Carried(s) || steps[0] == Fetch {
        CarriedStep(s, steps[0], unmarshal);
      }
      CarriedRun(s1, steps[1..], unmarshal);
    }
  }

  /** End to end: if the source is left alone and one fetch of it succeeds, then when no step is left
      every read of the last run of every watcher got the parse of the source's newest text. */
  lemma DeliversNewest(s: State, steps: seq<Step>, unmarshal: Unmarshal)
    requires Reachable(s, unmarshal) && CanSettle(s, steps, unmarshal) && CanRun(s, steps, unmarshal)
    requires AtRest(RunSteps(s, steps, unmarshal), unmarshal) && Fetch in steps && s.history != []
    requires s.history[|s.history| - 1].site != "" && ParseConfig(s.history[|s.history| - 1], unmarshal).Some?
    ensures var s' := RunSteps(s, steps, unmarshal); var newest := ParseConfig(s.history[|s.history| - 1], unmarshal);
            && s'.store.lastValid == newest
            && forall w :: w in s'.watchers ==> w.phase == Parked && forall r :: r in w.got ==> r == newest
  {
    SettlesFresh(s, steps, unmarshal);
    ReachableInv(s, unmarshal);
    SettleRun(s, steps, unmarshal);
    CarriedRun(s, steps, unmarshal);
  }
}
