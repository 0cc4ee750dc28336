/**
  The "needs restart" flag: which options changed (internal/conf/diff.go), whether one of
  them requires a restart (internal/conf/parse.go), and the watcher callback that keeps
  the flag (internal/conf/server.go).
 */
module Restart {
  import opened Options
  import opened SiteConfig

  const REQUIRE_RESTART: set<string> := {
    "auth.accessTokens", "auth.sessionExpiry", "git.cloneURLToRepositoryName", "searchScopes",
    "extensions", "disablePublicRepoRedirects", "auth.userOrgMap", "auth.providers", "externalURL",
    "update.channel", "insights.query.worker.concurrency", "insights.commit.indexer.interval",
    "codeIntelAutoIndexing.enabled", "permissions.syncUsersMaxConcurrency", "gitHubApp"
  }

  const EXPERIMENTAL := "experimentalFeatures::"
  const SERVICES := "serviceConnections::"

  function Prefixed(prefix: string, fields: Fields): (m: Fields)
    ensures forall k :: k in fields ==> prefix + k in m && m[prefix + k] == fields[k]
    ensures forall n :: n in m ==> prefix <= n && n[|prefix|..] in fields
  {
    var names := set k | k in fields :: prefix + k;
    assert forall n :: n in names ==> n[|prefix|..] in fields;
    map n | n in names :: fields[n[|prefix|..]]
  }

  // The struct's fields by JSON name; non-nil experimental features are listed one by one.
  function JsonFields(site: SiteConfiguration): Fields {
    site.options +
    if site.experimental.Some? then Prefixed(EXPERIMENTAL, site.experimental.value)
    else map["experimentalFeatures" := "null"]
  }

  predicate Differs(before: Fields, after: Fields, name: string)
    requires name in before
  {
    name !in after || before[name] != after[name]
  }

  method DiffStruct(before: Fields, after: Fields) returns (fields: set<string>)
    ensures forall n :: n in fields <==> n in before && Differs(before, after, n)
  {
    fields := {};
    var todo := before.Keys;
    while todo != {}
      invariant todo <= before.Keys
      invariant forall n :: n in fields <==> n in before && n !in todo && Differs(before, after, n)
      decreases todo
    {
      var n :| n in todo;
      todo := todo - {n};
      if n !in after || before[n] != after[n] {
        fields := fields + {n};
      }
    }
  }

  // Spec of diff: the changed fields of both parts.
  ghost predicate Changed(before: Unified, after: Unified, name: string) {
    var b, s := JsonFields(before.site), Prefixed(SERVICES, before.services);
    (name in b && Differs(b, JsonFields(after.site), name)) ||
    (name in s && Differs(s, Prefixed(SERVICES, after.services), name))
  }

  // The values of one field before and after differ, or it is gone.
  predicate FieldChanged(before: Fields, after: Fields, k: string) {
    k in before && (k !in after || before[k] != after[k])
  }

  function ExperimentalOf(u: Unified): Fields {
    if u.site.experimental.Some? then u.site.experimental.value else map[]
  }

  // A field set holds exactly the value that another set has under a name.
  predicate SameAt(a: Fields, x: string, b: Fields, y: string) {
    (x in a <==> y in b) && (x in a && y in b ==> a[x] == b[y])
  }

  lemma OptionAt(u: Unified, k: string)
    requires Plain({k})
    ensures SameAt(JsonFields(u.site), k, u.site.options, k) && k !in Prefixed(SERVICES, u.services)
  {
    assert k in {k};
  }

  lemma ExperimentAt(u: Unified, k: string)
    requires Plain(u.site.options.Keys)
    ensures SameAt(JsonFields(u.site), EXPERIMENTAL + k, ExperimentalOf(u), k)
    ensures EXPERIMENTAL + k !in Prefixed(SERVICES, u.services)
  {
    PrefixesDiffer(k);
    PrefixedAt(EXPERIMENTAL, ExperimentalOf(u), k);
    assert EXPERIMENTAL + k !in u.site.options;
  }

  lemma ServiceAt(u: Unified, k: string)
    requires Plain(u.site.options.Keys)
    ensures SameAt(Prefixed(SERVICES, u.services), SERVICES + k, u.services, k)
    ensures SERVICES + k !in JsonFields(u.site)
  {
    PrefixesDiffer(k);
    PrefixedAt(SERVICES, u.services, k);
    assert SERVICES + k !in u.site.options;
  }

  /** What the names in a diff stand for, when no option is spelled like a prefixed field: an option, an
      experimental feature or a service connection whose value changed. */
  lemma ChangedByKind(before: Unified, after: Unified, k: string)
    requires Plain(before.site.options.Keys) && Plain(after.site.options.Keys)
    ensures Plain({k}) ==> (Changed(before, after, k) <==> FieldChanged(before.site.options, after.site.options, k))
    ensures Changed(before, after, EXPERIMENTAL + k) <==>
            FieldChanged(ExperimentalOf(before), ExperimentalOf(after), k)
    ensures Changed(before, after, SERVICES + k) <==> FieldChanged(before.services, after.services, k)
  {
    if Plain({k}) {
      OptionAt(before, k);
      OptionAt(after, k);
    }
    ExperimentAt(before, k);
    ExperimentAt(after, k);
    ServiceAt(before, k);
    ServiceAt(after, k);
  }

  lemma PrefixedAt(prefix: string, fields: Fields, k: string)
    ensures prefix + k in Prefixed(prefix, fields) <==> k in fields
    ensures k in fields ==> Prefixed(prefix, fields)[prefix + k] == fields[k]
  {
    assert (prefix + k)[|prefix|..] == k;
  }

  lemma PrefixesDiffer(k: string)
    ensures !(SERVICES <= EXPERIMENTAL + k) && !(EXPERIMENTAL <= SERVICES + k)
    ensures EXPERIMENTAL <= EXPERIMENTAL + k && SERVICES <= SERVICES + k
    ensures EXPERIMENTAL + k != "experimentalFeatures" && SERVICES + k != "experimentalFeatures"
  {
    assert (EXPERIMENTAL + k)[0] == 'e' && (SERVICES + k)[0] == 's';
    assert |EXPERIMENTAL + k| > |"experimentalFeatures"|;
  }

  method Diff(before: Unified, after: Unified) returns (fields: set<string>)
    ensures forall n :: n in fields <==> Changed(before, after, n)
  {
    fields := DiffStruct(JsonFields(before.site), JsonFields(after.site));
    var services := DiffStruct(Prefixed(SERVICES, before.services), Prefixed(SERVICES, after.services));
    fields := fields + services;
  }

  // The part of a configuration that only a restart applies.
  function RestartView(u: Unified, listed: set<string>): Fields {
    map o | o in u.site.options && o in listed :: u.site.options[o]
  }

  // Values of one struct type: the same option names.
  predicate SameShape(a: Unified, b: Unified) {
    a.site.options.Keys == b.site.options.Keys
  }

  ghost predicate NeedRestart(before: Unified, after: Unified, listed: set<string>) {
    exists o :: o in listed && Changed(before, after, o)
  }

  method NeedRestartToApply(before: Unified, after: Unified, listed: set<string>) returns (need: bool)
    ensures need <==> NeedRestart(before, after, listed)
  {
    var changed := Diff(before, after);
    need := exists o :: o in changed && o in listed;
  }

  // No listed option is spelled like a prefixed field.
  predicate Plain(listed: set<string>) {
    forall o :: o in listed ==> !(EXPERIMENTAL <= o) && !(SERVICES <= o) && o != "experimentalFeatures"
  }

  lemma RequireRestartIsPlain()
    ensures Plain(REQUIRE_RESTART)
  {
    forall o | o in REQUIRE_RESTART
      ensures !(EXPERIMENTAL <= o) && !(SERVICES <= o) && o != "experimentalFeatures"
    {
      assert |o| > 2 && EXPERIMENTAL[2] == 'p' && SERVICES[2] == 'r' && SERVICES[0] == 's';
      assert o[2] != 'p' || o[0] != 'e';
      assert o[2] != 'r' || o[0] != 's';
    }
  }

  /** A restart is needed exactly when the part only a restart applies has changed. */
  lemma NeedRestartIffViewsDiffer(before: Unified, after: Unified, listed: set<string>)
    requires SameShape(before, after) && Plain(listed)
    ensures NeedRestart(before, after, listed) <==> RestartView(before, listed) != RestartView(after, listed)
  {
    var v, v' := RestartView(before, listed), RestartView(after, listed);
    assert v.Keys == v'.Keys;
    forall o | o in listed
      ensures Changed(before, after, o) <==> o in v && v[o] != v'[o]
    {
    }
    if v != v' {
      var o :| o in v && v[o] != v'[o];
      assert Changed(before, after, o);
    }
  }

  // Listed names that no field of the site configuration carries (schema/schema.go).
  const SURPLUS: set<string> := {"searchScopes", "extensions", "insights.commit.indexer.interval"}

  lemma SurplusIsListed()
    ensures SURPLUS <= REQUIRE_RESTART
  {
  }

  // A plain name that is no option is never among the changed fields.
  lemma AbsentNeverChanges(before: Unified, after: Unified, o: string)
    requires Plain({o}) && o !in before.site.options
    ensures !Changed(before, after, o)
  {
    assert o in {o};
  }

  /** Listed names that are no options ask for no restart: leaving them out changes no decision. */
  lemma SurplusNamesDoNothing(before: Unified, after: Unified, listed: set<string>, surplus: set<string>)
    requires Plain(listed) && surplus !! before.site.options.Keys
    ensures NeedRestart(before, after, listed) <==> NeedRestart(before, after, listed - surplus)
  {
    forall o | o in listed && o in surplus ensures !Changed(before, after, o) {
      assert o in before.site.options ==> o in surplus * before.site.options.Keys;
      AbsentNeverChanges(before, after, o);
    }
  }

  /** ---- The callback ---- */

  type Relation = (Unified, Unified) -> bool

  ghost function NeedsRestart(listed: set<string>): Relation {
    (before, after) => NeedRestart(before, after, listed)
  }

  datatype Memory = Memory(oldConfig: Option<Unified>, needRestart: bool)

  ghost function Observe(m: Memory, cfg: Unified, need: Relation): Memory {
    if m.oldConfig.None? then Memory(Some(cfg), m.needRestart)
    else Memory(Some(cfg), m.needRestart || need(m.oldConfig.value, cfg))
  }

  class Server {
    var oldConfig: Option<Unified>
    var needRestart: bool

    function Value(): Memory
      reads this
    {
      Memory(oldConfig, needRestart)
    }

    constructor ()
      ensures Value() == Memory(None, false)
    {
      oldConfig, needRestart := None, false;
    }

    // The function passed to Watch; `current` is what Get returns during the call.
    method OnUpdate(current: Unified)
      modifies this
      ensures Value() == Observe(old(Value()), current, NeedsRestart(REQUIRE_RESTART))
    {
      if oldConfig.None? {
        oldConfig := Some(current);
        return;
      }
      var need := NeedRestartToApply(oldConfig.value, current, REQUIRE_RESTART);
      if need {
        needRestart := true;
      }
      oldConfig := Some(current);
    }
  }

  ghost function ObserveAll(observed: seq<Unified>, need: Relation): Memory {
    if observed == [] then Memory(None, false)
    else Observe(ObserveAll(observed[..|observed| - 1], need), observed[|observed| - 1], need)
  }

  predicate AllSameShape(observed: seq<Unified>) {
    forall i, j :: 0 <= i < |observed| && 0 <= j < |observed| ==> SameShape(observed[i], observed[j])
  }

  ghost predicate Jump(observed: seq<Unified>, i: int, need: Relation) {
    0 < i < |observed| && need(observed[i - 1], observed[i])
  }

  lemma {:induction false} FlagIffJump(observed: seq<Unified>, need: Relation)
    ensures ObserveAll(observed, need).needRestart <==> exists i :: Jump(observed, i, need)
    ensures observed != [] ==> ObserveAll(observed, need).oldConfig == Some(observed[|observed| - 1])
  {
    if observed != [] {
      var n := |observed| - 1;
      var earlier := observed[..n];
      FlagIffJump(earlier, need);
      forall i ensures Jump(observed, i, need) <==> Jump(earlier, i, need) || (i == n && Jump(observed, n, need)) {
        if 0 < i < n {
          assert earlier[i - 1] == observed[i - 1] && earlier[i] == observed[i];
        }
      }
      assert ObserveAll(observed, need).needRestart <==>
             ObserveAll(earlier, need).needRestart || Jump(observed, n, need);
      if i :| Jump(earlier, i, need) {
        assert Jump(observed, i, need);
      }
    }
  }

  // Configuration i differs from the one before it in a restart-only option.
  predicate ViewChanges(observed: seq<Unified>, i: int, listed: set<string>) {
    0 < i < |observed| && RestartView(observed[i - 1], listed) != RestartView(observed[i], listed)
  }

  lemma {:induction false} NoChangeMeansConstant(observed: seq<Unified>, i: nat, listed: set<string>)
    requires i < |observed| && forall k :: !ViewChanges(observed, k, listed)
    ensures RestartView(observed[i], listed) == RestartView(observed[0], listed)
  {
    if i > 0 {
      assert !ViewChanges(observed, i, listed);
      NoChangeMeansConstant(observed, i - 1, listed);
    }
  }

  lemma FlagIffViewChanges(observed: seq<Unified>, listed: set<string>)
    requires AllSameShape(observed) && Plain(listed)
    ensures ObserveAll(observed, NeedsRestart(listed)).needRestart <==> exists i :: ViewChanges(observed, i, listed)
  {
    var need := NeedsRestart(listed);
    FlagIffJump(observed, need);
    forall i ensures Jump(observed, i, need) <==> ViewChanges(observed, i, listed) {
      if 0 < i < |observed| {
        NeedRestartIffViewsDiffer(observed[i - 1], observed[i], listed);
      }
    }
  }

  /** Over any run of observed configurations the flag is set exactly when some adjacent pair
      differs in a restart-only option; it never clears; and while it is clear all observed
      configurations agree on every such option.  RequireRestartIsPlain covers the real list. */
  lemma FlagTelescopes(observed: seq<Unified>, listed: set<string>)
    requires AllSameShape(observed) && Plain(listed)
    ensures var need := NeedsRestart(listed);
            && (ObserveAll(observed, need).needRestart <==>
                  exists i :: ViewChanges(observed, i, listed))
            && (forall n :: 0 <= n <= |observed| && ObserveAll(observed[..n], need).needRestart ==>
                  ObserveAll(observed, need).needRestart)
            && (!ObserveAll(observed, need).needRestart ==>
                  forall i :: 0 <= i < |observed| ==>
                    RestartView(observed[i], listed) == RestartView(observed[0], listed))
  {
    var need := NeedsRestart(listed);
    FlagIffViewChanges(observed, listed);
    forall n | 0 <= n <= |observed| && ObserveAll(observed[..n], need).needRestart
      ensures ObserveAll(observed, need).needRestart
    {
      FlagIffJump(observed[..n], need);
      FlagIffJump(observed, need);
      var i :| Jump(observed[..n], i, need);
      assert Jump(observed, i, need);
    }
    if !ObserveAll(observed, need).needRestart {
      forall i | 0 <= i < |observed| ensures RestartView(observed[i], listed) == RestartView(observed[0], listed) {
        NoChangeMeansConstant(observed, i, listed);
      }
    }
  }
}
