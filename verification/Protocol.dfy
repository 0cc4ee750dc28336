/**
  Configuration propagation as a transition system: one updater goroutine
  (internal/conf/client.go, continuouslyUpdate and fetchAndUpdate), any number of
  watcher goroutines (Watch), any number of concurrent Server.Write calls
  (internal/conf/server.go) and other processes that edit the source.  A step is one
  action that the mutexes and channels of the source make atomic.
 */
module Protocol {
  import opened Options
  import opened SiteConfig
  import opened ConfStore

  // Which writer's channel the current update will close, if any.
  type Signal = Option<nat>

  // The updater's program counter.  `ok` says that the update's fetch succeeded and had text.
  datatype Updater =
    | Idle                                                // in the select
    | Fetching(signal: Signal)                            // about to read the source
    | Fetched(signal: Signal, raw: RawUnified, version: nat)
    | Locking(signal: Signal, ok: bool)                   // published, about to take watchersMu
    | Notifying(signal: Signal, ok: bool, next: nat)      // holds watchersMu, sent to watchers[..next]
    | Closing(signal: Signal, ok: bool)                   // about to signal the writer

  datatype Phase =
    | Waiting   // registered, before its first call of f
    | Running   // inside f, configuration not read yet
    | Looked    // inside f, configuration read at least once
    | Parked    // blocked on its notify channel

  // `token` is the capacity-1 channel; `got` is every configuration f's latest run got, in order,
  // and `seen` counts the publications there were at the first of these reads.
  datatype Watcher = Watcher(phase: Phase, token: bool, seen: nat, got: seq<Option<Unified>>)

  // `version` is the place of the written configuration in the source's history.
  datatype Writer =
    | Written(version: nat)              // stored, channel not sent yet
    | Queued(version: nat)               // sent, waiting for it to be closed
    | Returned(version: nat, ok: bool)

  datatype State = State(
    history: seq<RawUnified>,     // what the source has held, oldest first
    store: Store,
    rawVersion: nat,              // the place in history of the store's raw text, 0 for none
    published: seq<Unified>,      // every value lastValid has had
    updater: Updater,
    watchers: seq<Watcher>,
    buffer: Signal,               // the capacity-1 channel sourceWrites
    writers: seq<Writer>)

  datatype Step =
    | SourceEdit(raw: RawUnified)
    | Register
    | Begin(i: nat)
    | Look(i: nat)
    | Finish(i: nat)
    | Wake(i: nat)
    | WriteSource(input: RawUnified, stored: RawUnified)
    | Send(w: nat)
    | Prompt
    | Timer
    | Fetch
    | FetchFails
    | Publish
    | Lock
    | Notify
    | Unlock
    | Close

  predicate IsInit(s: State) {
    && |s.history| == 1 && s.store == NEW_STORE && s.rawVersion == 0 && s.published == []
    && s.updater == Fetching(None) && s.watchers == [] && s.buffer == None && s.writers == []
  }

  predicate Enabled(s: State, step: Step, unmarshal: Unmarshal) {
    match step
    case SourceEdit(_) => true
    case Register => !s.updater.Notifying?
    case Begin(i) => i < |s.watchers| && s.watchers[i].phase == Waiting && s.store.ready
    case Look(i) => i < |s.watchers| && s.watchers[i].phase in {Running, Looked} && s.published != []
    case Finish(i) => i < |s.watchers| && s.watchers[i].phase in {Running, Looked}
    case Wake(i) => i < |s.watchers| && s.watchers[i].phase == Parked && s.watchers[i].token
    case WriteSource(input, stored) => ParseConfig(input, unmarshal).Some? && stored.site == input.site
    case Send(w) => w < |s.writers| && s.writers[w].Written? && s.buffer.None?
    case Prompt => s.updater.Idle? && s.buffer.Some?
    case Timer => s.updater.Idle?
    case Fetch => s.updater.Fetching? && s.history != []
    case FetchFails => s.updater.Fetching?
    case Publish => s.updater.Fetched?
    case Lock => s.updater.Locking?
    case Notify => s.updater.Notifying? && s.updater.next < |s.watchers|
    case Unlock => s.updater.Notifying? && s.updater.next == |s.watchers|
    case Close => s.updater.Closing? && (s.updater.signal.Some? ==> s.updater.signal.value < |s.writers|)
  }

  // A run of f that has not read yet drops what the run before it got.
  function Started(s: State, w: Watcher): Watcher {
    if w.phase == Running then w.(seen := |s.published|, got := []) else w
  }

  function Apply(s: State, step: Step, unmarshal: Unmarshal): State
    requires Enabled(s, step, unmarshal)
  {
    match step
    case SourceEdit(raw) => s.(history := s.history + [raw])
    case Register => s.(watchers := s.watchers + [Watcher(Waiting, false, 0, [])])
    case Begin(i) => s.(watchers := s.watchers[i := s.watchers[i].(phase := Running)])
    case Look(i) =>
      var w := Started(s, s.watchers[i]);
      s.(watchers := s.watchers[i := w.(phase := Looked, got := w.got + [s.store.lastValid])])
    case Finish(i) => s.(watchers := s.watchers[i := Started(s, s.watchers[i]).(phase := Parked)])
    case Wake(i) => s.(watchers := s.watchers[i := s.watchers[i].(phase := Running, token := false)])
    case WriteSource(_, stored) =>
      s.(history := s.history + [stored], writers := s.writers + [Written(|s.history| + 1)])
    case Send(w) => s.(buffer := Some(w), writers := s.writers[w := Queued(s.writers[w].version)])
    case Prompt => s.(buffer := None, updater := Fetching(s.buffer))
    case Timer => s.(updater := Fetching(None))
    case Fetch =>
      s.(updater := Fetched(s.updater.signal, s.history[|s.history| - 1], |s.history|))
    case FetchFails => s.(updater := Closing(s.updater.signal, false))
    case Publish =>
      var Fetched(signal, raw, version) := s.updater;
      var store := Offer(s.store, raw, unmarshal);
      var changed := Publishes(s.store, raw, unmarshal);
      s.(store := store,
         rawVersion := if raw.site == "" then s.rawVersion else version,
         published := if changed then s.published + [store.lastValid.value] else s.published,
         updater := if changed then Locking(signal, raw.site != "") else Closing(signal, raw.site != ""))
    case Lock => s.(updater := Notifying(s.updater.signal, s.updater.ok, 0))
    case Notify =>
      var i := s.updater.next;
      s.(watchers := s.watchers[i := s.watchers[i].(token := true)], updater := s.updater.(next := i + 1))
    case Unlock => s.(updater := Closing(s.updater.signal, s.updater.ok))
    case Close =>
      var Closing(signal, ok) := s.updater;
      s.(updater := Idle,
         writers := if signal.None? then s.writers
                    else s.writers[signal.value := Returned(s.writers[signal.value].version, ok)])
  }

  // Every step is enabled in turn.
  predicate CanRun(s: State, steps: seq<Step>, unmarshal: Unmarshal)
    decreases |steps|
  {
    steps == [] ||
    (Enabled(s, steps[0], unmarshal) && CanRun(Apply(s, steps[0], unmarshal), steps[1..], unmarshal))
  }

  function RunSteps(s: State, steps: seq<Step>, unmarshal: Unmarshal): State
    requires CanRun(s, steps, unmarshal)
    decreases |steps|
  {
    if steps == [] then s else RunSteps(Apply(s, steps[0], unmarshal), steps[1..], unmarshal)
  }

  // Some interleaving leads from the start to `s`.
  ghost predicate Reachable(s: State, unmarshal: Unmarshal) {
    exists s0: State, steps: seq<Step> ::
      IsInit(s0) && CanRun(s0, steps, unmarshal) && RunSteps(s0, steps, unmarshal) == s
  }

  lemma {:induction false} RunOneMore(s: State, steps: seq<Step>, step: Step, unmarshal: Unmarshal)
    requires CanRun(s, steps, unmarshal) && Enabled(RunSteps(s, steps, unmarshal), step, unmarshal)
    ensures CanRun(s, steps + [step], unmarshal)
    ensures RunSteps(s, steps + [step], unmarshal) == Apply(RunSteps(s, steps, unmarshal), step, unmarshal)
    decreases |steps|
  {
    if steps == [] {
      assert [] + [step] == [step] && [step][1..] == [];
    } else {
      assert (steps + [step])[1..] == steps[1..] + [step];
      RunOneMore(Apply(s, steps[0], unmarshal), steps[1..], step, unmarshal);
    }
  }

  lemma Advance(s: State, step: Step, unmarshal: Unmarshal) returns (s': State)
    requires Reachable(s, unmarshal) && Enabled(s, step, unmarshal)
    ensures Reachable(s', unmarshal) && s' == Apply(s, step, unmarshal)
  {
    var s0: State, steps: seq<Step> :|
      IsInit(s0) && CanRun(s0, steps, unmarshal) && RunSteps(s0, steps, unmarshal) == s;
    RunOneMore(s0, steps, step, unmarshal);
    s' := Apply(s, step, unmarshal);
  }

  /** ---- The inductive invariant ---- */

  // Every read of the watcher's latest run, from the first on, got the current configuration.
  predicate Fresh(s: State, w: Watcher) {
    w.seen == |s.published| && forall r :: r in w.got ==> r == s.store.lastValid
  }

  // The updater has yet to send to watcher i in the current notify pass.
  predicate StillAhead(s: State, i: nat) {
    s.updater.Locking? || (s.updater.Notifying? && s.updater.next <= i)
  }

  // Watcher i saw the current configuration, or something makes it look again.
  predicate Covered(s: State, i: nat)
    requires i < |s.watchers|
  {
    var w := s.watchers[i];
    Fresh(s, w) || w.token || w.phase == Waiting || w.phase == Running || StillAhead(s, i)
  }

  predicate NoLostWakeUp(s: State) {
    && (s.updater.Notifying? ==> s.updater.next <= |s.watchers|)
    && forall i :: 0 <= i < |s.watchers| ==> Covered(s, i)
  }

  // The store agrees with the publications and with one entry of the source's history.
  predicate StoreAgrees(s: State, unmarshal: Unmarshal) {
    && Coherent(s.store, unmarshal)
    && s.store.lastValid == (if s.published == [] then None else Some(s.published[|s.published| - 1]))
    && s.history != []
    && s.rawVersion <= |s.history|
    && (s.rawVersion == 0 <==> s.store.raw.site == "")
    && (s.rawVersion > 0 ==> s.store.raw.Equal(s.history[s.rawVersion - 1]))
    && (s.updater.Fetched? ==>
          s.rawVersion <= s.updater.version && 0 < s.updater.version <= |s.history| &&
          s.updater.raw == s.history[s.updater.version - 1])
  }

  function SignalOf(u: Updater): Signal {
    if u.Idle? then None else u.signal
  }

  // A writer is waiting exactly while its channel is in the buffer or held by the updater.
  predicate Served(s: State, w: nat)
    requires w < |s.writers|
  {
    s.writers[w].Queued? <==> (s.buffer == Some(w)) != (SignalOf(s.updater) == Some(w))
  }

  // What is already known about writer w's configuration.
  predicate WriterAgrees(s: State, w: nat)
    requires w < |s.writers|
  {
    && 0 < s.writers[w].version <= |s.history|
    && Served(s, w)
    && (s.writers[w].Returned? && s.writers[w].ok ==> s.writers[w].version <= s.rawVersion)
    && (SignalOf(s.updater) == Some(w) ==>
          && (s.updater.Fetched? ==> s.writers[w].version <= s.updater.version)
          && (s.updater.Locking? || s.updater.Notifying? || s.updater.Closing? ==>
                (s.updater.ok ==> s.writers[w].version <= s.rawVersion)))
  }

  predicate WritersAgree(s: State) {
    && (s.buffer.Some? ==> s.buffer.value < |s.writers|)
    && (SignalOf(s.updater).Some? ==> SignalOf(s.updater).value < |s.writers|)
    && (s.buffer.Some? ==> s.buffer != SignalOf(s.updater))
    && forall w :: 0 <= w < |s.writers| ==> WriterAgrees(s, w)
  }

  predicate Inv(s: State, unmarshal: Unmarshal) {
    NoLostWakeUp(s) && StoreAgrees(s, unmarshal) && WritersAgree(s)
  }

  lemma NoLostWakeUpStep(s: State, step: Step, unmarshal: Unmarshal)
    requires NoLostWakeUp(s) && StoreAgrees(s, unmarshal) && Enabled(s, step, unmarshal)
    ensures NoLostWakeUp(Apply(s, step, unmarshal))
  {
    var s' := Apply(s, step, unmarshal);
    forall i | 0 <= i < |s'.watchers| ensures Covered(s', i) {
      if i < |s.watchers| {
        assert Covered(s, i);
      }
    }
  }

  lemma PublishAgrees(s: State, unmarshal: Unmarshal)
    requires StoreAgrees(s, unmarshal) && s.updater.Fetched?
    ensures StoreAgrees(Apply(s, Publish, unmarshal), unmarshal)
    ensures Apply(s, Publish, unmarshal).rawVersion >= s.rawVersion
  {
    OfferKeepsCoherent(s.store, s.updater.raw, unmarshal);
  }

  lemma StoreAgreesStep(s: State, step: Step, unmarshal: Unmarshal)
    requires StoreAgrees(s, unmarshal) && Enabled(s, step, unmarshal)
    ensures StoreAgrees(Apply(s, step, unmarshal), unmarshal)
    ensures Apply(s, step, unmarshal).rawVersion >= s.rawVersion
  {
    if step == Publish {
      PublishAgrees(s, unmarshal);
    }
  }

  lemma WritersAgreeStep(s: State, step: Step, unmarshal: Unmarshal)
    requires WritersAgree(s) && StoreAgrees(s, unmarshal) && Enabled(s, step, unmarshal)
    ensures WritersAgree(Apply(s, step, unmarshal))
  {
    var s' := Apply(s, step, unmarshal);
    if step.Send? {
      assert WriterAgrees(s, step.w);
    }
    forall w | 0 <= w < |s'.writers| ensures WriterAgrees(s', w) {
      if w < |s.writers| {
        WriterAgreesStep(s, step, w, unmarshal);
      }
    }
  }

  lemma WriterAgreesStep(s: State, step: Step, w: nat, unmarshal: Unmarshal)
    requires WritersAgree(s) && StoreAgrees(s, unmarshal) && Enabled(s, step, unmarshal) && w < |s.writers|
    ensures WriterAgrees(Apply(s, step, unmarshal), w)
  {
    if step == Close {
      WriterAgreesClose(s, w, unmarshal);
    } else if step.Send? {
      WriterAgreesSend(s, step, w, unmarshal);
    } else {
      assert WriterAgrees(s, w);
    }
  }

  lemma WriterAgreesClose(s: State, w: nat, unmarshal: Unmarshal)
    requires WritersAgree(s) && Enabled(s, Close, unmarshal) && w < |s.writers|
    ensures WriterAgrees(Apply(s, Close, unmarshal), w)
  {
    assert WriterAgrees(s, w);
  }

  lemma WriterAgreesSend(s: State, step: Step, w: nat, unmarshal: Unmarshal)
    requires WritersAgree(s) && step.Send? && Enabled(s, step, unmarshal) && w < |s.writers|
    ensures WriterAgrees(Apply(s, step, unmarshal), w)
  {
    assert WriterAgrees(s, w) && WriterAgrees(s, step.w);
  }

  lemma InvStep(s: State, step: Step, unmarshal: Unmarshal)
    requires Inv(s, unmarshal) && Enabled(s, step, unmarshal)
    ensures Inv(Apply(s, step, unmarshal), unmarshal)
  {
    NoLostWakeUpStep(s, step, unmarshal);
    StoreAgreesStep(s, step, unmarshal);
    WritersAgreeStep(s, step, unmarshal);
  }

  lemma {:induction false} InvRun(s: State, steps: seq<Step>, unmarshal: Unmarshal)
    requires Inv(s, unmarshal) && CanRun(s, steps, unmarshal)
    ensures Inv(RunSteps(s, steps, unmarshal), unmarshal)
    ensures s.rawVersion <= RunSteps(s, steps, unmarshal).rawVersion
    decreases |steps|
  {
    if steps != [] {
      InvStep(s, steps[0], unmarshal);
      StoreAgreesStep(s, steps[0], unmarshal);
      InvRun(Apply(s, steps[0], unmarshal), steps[1..], unmarshal);
    }
  }

  lemma ReachableInv(s: State, unmarshal: Unmarshal)
    requires Reachable(s, unmarshal)
    ensures Inv(s, unmarshal)
  {
    var s0: State, steps: seq<Step> :|
      IsInit(s0) && CanRun(s0, steps, unmarshal) && RunSteps(s0, steps, unmarshal) == s;
    InvRun(s0, steps, unmarshal);
  }

  /** ---- Safety over every interleaving ---- */

  // No notify pass is under way and every watcher is blocked on an empty channel.
  predicate Quiescent(s: State) {
    && !s.updater.Locking? && !s.updater.Notifying?
    && forall w :: w in s.watchers ==> w.phase == Parked && !w.token
  }

  /** No update is ever missed: whenever everything has come to rest, every read of the last run of
      every watcher (and so every cached value) got the configuration the store serves now. */
  lemma QuiescentIsFresh(s: State, unmarshal: Unmarshal)
    requires Reachable(s, unmarshal) && Quiescent(s)
    ensures forall w :: w in s.watchers ==>
      w.seen == |s.published| && forall r :: r in w.got ==> r == s.store.lastValid
  {
    ReachableInv(s, unmarshal);
    forall w | w in s.watchers ensures Fresh(s, w) {
      var i :| 0 <= i < |s.watchers| && s.watchers[i] == w;
      assert Covered(s, i);
    }
  }

  /** And when the store has caught up with the source, that is the newest configuration. */
  lemma QuiescentHasNewest(s: State, unmarshal: Unmarshal)
    requires Reachable(s, unmarshal) && Quiescent(s) && s.rawVersion == |s.history| && s.history != []
    requires ParseConfig(s.history[|s.history| - 1], unmarshal).Some?
    ensures forall w, r :: w in s.watchers && r in w.got ==> r == ParseConfig(s.history[|s.history| - 1], unmarshal)
  {
    ReachableInv(s, unmarshal);
    QuiescentIsFresh(s, unmarshal);
  }

  /** A watcher whose latest run began before the newest publication has a pending token, is about to read, or has
      still to be sent to, in every reachable state: it can never block with nothing left to wake it. */
  lemma StaleWatcherIsWoken(s: State, i: nat, unmarshal: Unmarshal)
    requires Reachable(s, unmarshal) && i < |s.watchers| && s.watchers[i].seen < |s.published|
    ensures s.watchers[i].token || s.watchers[i].phase in {Waiting, Running} || StillAhead(s, i)
  {
    ReachableInv(s, unmarshal);
    assert Covered(s, i);
  }

  /** When a Server.Write has returned nil and the fetch it waited for succeeded with text, the
      store's raw text is one the source held at or after that write; and if the source's text
      there parses, readers get its parse. */
  lemma WriteThenRead(s: State, w: nat, unmarshal: Unmarshal)
    requires Reachable(s, unmarshal)
    requires w < |s.writers| && s.writers[w].Returned? && s.writers[w].ok
    ensures exists k :: 0 < s.writers[w].version <= k + 1 <= |s.history| && s.store.raw.Equal(s.history[k])
    ensures ParseConfig(s.store.raw, unmarshal).Some? ==> s.store.lastValid == ParseConfig(s.store.raw, unmarshal)
  {
    ReachableInv(s, unmarshal);
    assert WriterAgrees(s, w);
    assert s.store.raw.Equal(s.history[s.rawVersion - 1]);
  }

  /** The store's raw text never moves back in the source's history. */
  lemma RawNeverGoesBack(s: State, steps: seq<Step>, unmarshal: Unmarshal)
    requires Reachable(s, unmarshal) && CanRun(s, steps, unmarshal)
    ensures s.rawVersion <= RunSteps(s, steps, unmarshal).rawVersion
  {
    ReachableInv(s, unmarshal);
    InvRun(s, steps, unmarshal);
  }

  /** Without a successful fetch the promise fails: Write returns nil before the store has it. */
  lemma FailedFetchBreaksWriteThenRead(unmarshal: Unmarshal, first: RawUnified, input: RawUnified) returns (s: State)
    requires ParseConfig(input, unmarshal).Some? && input.site != ""
    ensures Reachable(s, unmarshal)
    ensures |s.writers| == 1 && s.writers[0].Returned?
    ensures 0 < s.writers[0].version <= |s.history| && s.history[s.writers[0].version - 1] == input
    ensures !s.store.raw.Equal(input) && s.store.lastValid.None?
  {
    var s0 := State([first], NEW_STORE, 0, [], Fetching(None), [], None, []);
    assert CanRun(s0, [], unmarshal) && RunSteps(s0, [], unmarshal) == s0;
    s := Advance(s0, FetchFails, unmarshal);
    s := Advance(s, Close, unmarshal);
    assert s == s0.(updater := Idle);
    s := WriteAndWait(s, input, unmarshal);
    s := Advance(s, FetchFails, unmarshal);
    s := Advance(s, Close, unmarshal);
  }

  /** ---- The update that serves a write ---- */

  // Up to the end of the update that holds writer w's channel: `before` is the store's version when
  // that update began.
  predicate Serving(s: State, w: nat, before: nat) {
    && w < |s.writers| && SignalOf(s.updater) == Some(w)
    && (s.updater.Fetching? ==> s.rawVersion == before)
    && (s.updater.Fetched? ==> s.rawVersion == before && s.writers[w].version <= s.updater.version)
    && (s.updater.Locking? || s.updater.Notifying? || s.updater.Closing? ==>
          if s.updater.ok then s.writers[w].version <= s.rawVersion else s.rawVersion == before)
  }

  // The signal stays with the updater along the whole run.
  predicate StaysServing(s: State, steps: seq<Step>, w: nat, unmarshal: Unmarshal)
    requires CanRun(s, steps, unmarshal)
    decreases |steps|
  {
    SignalOf(s.updater) == Some(w) &&
    (steps == [] || StaysServing(Apply(s, steps[0], unmarshal), steps[1..], w, unmarshal))
  }

  lemma ServingStep(s: State, step: Step, w: nat, before: nat, unmarshal: Unmarshal)
    requires Inv(s, unmarshal) && Enabled(s, step, unmarshal) && Serving(s, w, before)
    requires SignalOf(Apply(s, step, unmarshal).updater) == Some(w)
    ensures var s' := Apply(s, step, unmarshal);
            Serving(s', w, before) && s'.writers[w].version == s.writers[w].version
  {
    assert WriterAgrees(s, w);
  }

  lemma {:induction false} ServingRun(s: State, steps: seq<Step>, w: nat, before: nat, unmarshal: Unmarshal)
    requires Inv(s, unmarshal) && CanRun(s, steps, unmarshal) && Serving(s, w, before)
    requires StaysServing(s, steps, w, unmarshal)
    ensures var s' := RunSteps(s, steps, unmarshal);
            Serving(s', w, before) && s'.writers[w].version == s.writers[w].version
    decreases |steps|
  {
    if steps != [] {
      InvStep(s, steps[0], unmarshal);
      ServingStep(s, steps[0], w, before, unmarshal);
      ServingRun(Apply(s, steps[0], unmarshal), steps[1..], w, before, unmarshal);
    }
  }

  /** Exactly when a write is in the store as it returns: the fetch of the update that served it
      succeeded with text, or the store already had that version when the update began. */
  lemma WrittenIsReadIff(s: State, steps: seq<Step>, w: nat, unmarshal: Unmarshal)
    requires Reachable(s, unmarshal) && s.updater == Fetching(Some(w)) && CanRun(s, steps, unmarshal)
    requires StaysServing(s, steps, w, unmarshal) && RunSteps(s, steps, unmarshal).updater.Closing?
    ensures w < |s.writers|
    ensures var s' := RunSteps(s, steps, unmarshal);
            && Enabled(s', Close, unmarshal) && w < |s'.writers|
            && Apply(s', Close, unmarshal).writers[w] == Returned(s.writers[w].version, s'.updater.ok)
            && Apply(s', Close, unmarshal).rawVersion == s'.rawVersion
            && (s.writers[w].version <= s'.rawVersion <==> s'.updater.ok || s.writers[w].version <= s.rawVersion)
  {
    ReachableInv(s, unmarshal);
    ServingRun(s, steps, w, s.rawVersion, unmarshal);
  }

  lemma WriteAndWait(s: State, input: RawUnified, unmarshal: Unmarshal) returns (s': State)
    requires Reachable(s, unmarshal) && s.updater.Idle? && s.buffer.None?
    requires ParseConfig(input, unmarshal).Some?
    ensures Reachable(s', unmarshal)
    ensures s' == s.(history := s.history + [input], updater := Fetching(Some(|s.writers|)),
                     writers := s.writers + [Queued(|s.history| + 1)])
  {
    s' := Advance(s, WriteSource(input, input), unmarshal);
    s' := Advance(s', Send(|s.writers|), unmarshal);
    s' := Advance(s', Prompt, unmarshal);
  }
}
