/**
  The client's own code (internal/conf/client.go): registering a watcher, the
  non-blocking send loop and one fetch-and-update.  The last lemma ties this
  sequential code to the steps of the transition system in Protocol.
 */
module Client {
  import opened Options
  import opened SiteConfig
  import opened ConfStore
  import P = Protocol

  // What fetchAndUpdate touches: the store and the content of each watcher channel.
  datatype Local = Local(store: Store, tokens: seq<bool>)

  datatype FetchError = CannotFetch | CannotUpdate(reason: UpdateError)

  function AllSent(n: nat): seq<bool> {
    seq(n, _ => true)
  }

  // Spec: offer the configuration, and fill every channel exactly when it was published.
  function Updated(l: Local, raw: RawUnified, unmarshal: Unmarshal): Local {
    Local(Offer(l.store, raw, unmarshal),
          if Publishes(l.store, raw, unmarshal) then AllSent(|l.tokens|) else l.tokens)
  }

  class UpdateClient {
    const store: Cell
    var watchers: seq<bool>

    function Value(): Local
      reads this, store
    {
      Local(store.Value(), watchers)
    }

    constructor (store: Cell)
      ensures this.store == store && watchers == []
    {
      this.store := store;
      watchers := [];
    }

    // The part of Watch under watchersMu: a new empty channel at the end.
    method Register() returns (i: nat)
      modifies this
      ensures watchers == old(watchers) + [false] && i == |old(watchers)|
    {
      i := |watchers|;
      watchers := watchers + [false];
    }

    method NotifyWatchers()
      modifies this
      ensures watchers == AllSent(|old(watchers)|)
    {
      var i := 0;
      while i < |watchers|
        invariant 0 <= i <= |watchers| == |old(watchers)|
        invariant forall k :: 0 <= k < i ==> watchers[k]
      {
        if !watchers[i] {
          watchers := watchers[i := true];
        }
        i := i + 1;
      }
    }

    method FetchAndUpdate(fetched: Option<RawUnified>) returns (err: Option<FetchError>)
      modifies this, store
      ensures fetched.None? ==> err == Some(CannotFetch) && Value() == old(Value())
      ensures fetched.Some? ==> Value() == Updated(old(Value()), fetched.value, store.unmarshal)
      ensures fetched.Some? ==>
        var raw := fetched.value;
        var known, parses := old(store.raw).Equal(raw), ParseConfig(raw, store.unmarshal).Some?;
        && (err.None? <==> raw.site != "" && (known || parses))
        && (err == Some(CannotUpdate(EmptySite)) <==> raw.site == "")
        && (err == Some(CannotUpdate(Unparsable)) <==> raw.site != "" && !known && !parses)
      ensures fetched.Some? && err.None? ==> store.raw.Equal(fetched.value)
      ensures fetched.Some? && err.None? && old(Coherent(store.Value(), store.unmarshal)) &&
              ParseConfig(fetched.value, store.unmarshal).Some? ==>
                store.lastValid == ParseConfig(fetched.value, store.unmarshal)
    {
      if fetched.None? {
        return Some(CannotFetch);
      }
      var change, failure := store.MaybeUpdate(fetched.value);
      if failure.Some? {
        assert failure.value.EmptySite? || failure.value.Unparsable?;
        return Some(CannotUpdate(failure.value));
      }
      if change.changed {
        NotifyWatchers();
      }
      return None;
    }
  }

  /** ---- The sequential code is an uninterrupted run of the protocol ---- */

  function ChannelsOf(s: P.State): seq<bool> {
    seq(|s.watchers|, i requires 0 <= i < |s.watchers| => s.watchers[i].token)
  }

  function LocalOf(s: P.State): Local {
    Local(s.store, ChannelsOf(s))
  }

  function NotifySteps(n: nat): seq<P.Step> {
    if n == 0 then [P.Unlock] else [P.Notify] + NotifySteps(n - 1)
  }

  lemma {:induction false} NotifyPass(s: P.State, unmarshal: Unmarshal)
    requires s.updater.Notifying? && s.updater.next <= |s.watchers|
    requires forall k :: 0 <= k < s.updater.next ==> s.watchers[k].token
    ensures var steps := NotifySteps(|s.watchers| - s.updater.next);
            P.CanRun(s, steps, unmarshal) &&
            var s' := P.RunSteps(s, steps, unmarshal);
            s'.store == s.store && ChannelsOf(s') == AllSent(|s.watchers|) &&
            s'.updater == P.Closing(s.updater.signal, s.updater.ok)
    decreases |s.watchers| - s.updater.next
  {
    var n := |s.watchers| - s.updater.next;
    var steps := NotifySteps(n);
    if n == 0 {
      assert steps[1..] == [];
      var s' := P.Apply(s, P.Unlock, unmarshal);
      assert P.RunSteps(s, steps, unmarshal) == P.RunSteps(s', [], unmarshal);
    } else {
      assert steps[1..] == NotifySteps(n - 1);
      NotifyPass(P.Apply(s, P.Notify, unmarshal), unmarshal);
    }
  }

  // Fetch, publish and, when something was published, a whole notify pass.
  function UpdateSteps(s: P.State, unmarshal: Unmarshal): seq<P.Step>
    requires s.history != []
  {
    [P.Fetch, P.Publish] +
    if Publishes(s.store, s.history[|s.history| - 1], unmarshal) then [P.Lock] + NotifySteps(|s.watchers|) else []
  }

  /** Run without interruption, the protocol's steps do what FetchAndUpdate does. */
  lemma UpdateIsProtocolRun(s: P.State, unmarshal: Unmarshal)
    requires s.updater.Fetching? && s.history != []
    ensures P.CanRun(s, UpdateSteps(s, unmarshal), unmarshal)
    ensures LocalOf(P.RunSteps(s, UpdateSteps(s, unmarshal), unmarshal)) ==
            Updated(LocalOf(s), s.history[|s.history| - 1], unmarshal)
    ensures P.RunSteps(s, UpdateSteps(s, unmarshal), unmarshal).updater.Closing?
  {
    var steps := UpdateSteps(s, unmarshal);
    var s1 := P.Apply(s, P.Fetch, unmarshal);
    var s2 := P.Apply(s1, P.Publish, unmarshal);
    var rest := steps[1..][1..];
    if Publishes(s.store, s.history[|s.history| - 1], unmarshal) {
      assert rest == [P.Lock] + NotifySteps(|s.watchers|) && rest[1..] == NotifySteps(|s.watchers|);
      var s3 := P.Apply(s2, P.Lock, unmarshal);
      NotifyPass(s3, unmarshal);
      assert P.CanRun(s2, rest, unmarshal);
      assert P.RunSteps(s2, rest, unmarshal) == P.RunSteps(s3, rest[1..], unmarshal);
    } else {
      assert rest == [];
      assert P.CanRun(s2, rest, unmarshal) && P.RunSteps(s2, rest, unmarshal) == s2;
      assert ChannelsOf(s2) == ChannelsOf(s);
    }
    assert P.CanRun(s1, steps[1..], unmarshal);
    assert P.RunSteps(s1, steps[1..], unmarshal) == P.RunSteps(s2, rest, unmarshal);
    assert P.RunSteps(s, steps, unmarshal) == P.RunSteps(s1, steps[1..], unmarshal);
  }
}
