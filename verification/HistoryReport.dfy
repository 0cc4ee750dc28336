/**
  The history report by index (dev/buildchecker/history.go, generateHistory): which series make an
  incident, when it begins and ends, and which failures are flakes.
 */
module HistoryReport {
  import opened Builds
  import opened Tally
  import opened Series
  import opened History

  /** ---- Series one after another ---- */

  // Where the series that starts at s ends.
  function SeriesEnd(bs: seq<Build>, s: nat): (e: nat)
    requires s <= |bs|
    ensures s <= e <= |bs|
  {
    s + StopIndex(bs[s..])
  }

  predicate StartsSeries(bs: seq<Build>, s: nat) {
    s <= |bs| && (s == 0 || Stops(bs[s - 1]))
  }

  lemma SeriesEndIsEnd(bs: seq<Build>, s: nat)
    requires StartsSeries(bs, s)
    ensures IsSeries(bs, s, SeriesEnd(bs, s))
  {
    var e, rest := SeriesEnd(bs, s), bs[s..];
    forall i | s <= i < e ensures !Stops(bs[i]) {
      assert bs[i] == rest[i - s];
    }
    assert e < |bs| ==> bs[e] == rest[e - s];
  }

  lemma SameStart(bs: seq<Build>, s: nat, e: nat, e': nat)
    requires IsSeries(bs, s, e) && IsSeries(bs, s, e')
    ensures e == e'
  {
  }

  // A series that starts behind another starts behind the build that ends it.
  lemma NextSeries(bs: seq<Build>, s: nat, e: nat, s': nat, e': nat)
    requires IsSeries(bs, s, e) && IsSeries(bs, s', e') && s < s'
    ensures e < s'
  {
    assert Stops(bs[s' - 1]);
  }

  lemma SameSeries(bs: seq<Build>, i: nat, s: nat, e: nat, s': nat, e': nat)
    requires IsSeries(bs, s, e) && IsSeries(bs, s', e') && s <= i < e && s' <= i < e'
    ensures s == s' && e == e'
  {
    if s < s' {
      NextSeries(bs, s, e, s', e');
    } else if s' < s {
      NextSeries(bs, s', e', s, e);
    } else {
      SameStart(bs, s, e, e');
    }
  }

  lemma RunOfSeries(bs: seq<Build>, s: nat, clock: Clock)
    requires s <= |bs|
    ensures var idx, run := CountedIndices(bs, s, SeriesEnd(bs, s), clock), FirstRun(bs[s..], clock);
            |run| == |idx| && forall k :: 0 <= k < |idx| ==> run[k] == bs[idx[k]]
  {
    CountedByIndex(bs, s, SeriesEnd(bs, s), clock);
    assert bs[s..][..StopIndex(bs[s..])] == bs[s..SeriesEnd(bs, s)];
  }

  predicate ExceededAt(bs: seq<Build>, s: nat, threshold: int, clock: Clock)
    requires s <= |bs|
  {
    Exceeds(CountedIndices(bs, s, SeriesEnd(bs, s), clock), threshold)
  }

  /** ---- Exceeded series ---- */

  // The exceeded series from s on.
  function ExceededFrom(bs: seq<Build>, s: nat, threshold: int, clock: Clock): seq<(nat, nat)>
    requires s <= |bs|
    decreases |bs| - s
  {
    var e := SeriesEnd(bs, s);
    (if ExceededAt(bs, s, threshold, clock) then [(s, e)] else []) +
    if e < |bs| then ExceededFrom(bs, e + 1, threshold, clock) else []
  }

  ghost predicate SpansFrom(bs: seq<Build>, s: nat, spans: seq<(nat, nat)>, threshold: int, clock: Clock) {
    && (forall k :: 0 <= k < |spans| ==>
          s <= spans[k].0 && ExceededSeries(bs, spans[k].0, spans[k].1, threshold, clock))
    && (forall i, j :: 0 <= i < j < |spans| ==> spans[i].1 < spans[j].0)
  }

  lemma SpansCons(bs: seq<Build>, s: nat, e: nat, n: nat, rest: seq<(nat, nat)>, threshold: int, clock: Clock)
    requires ExceededSeries(bs, s, e, threshold, clock) && SpansFrom(bs, n, rest, threshold, clock)
    requires s <= n && (e < n || rest == [])
    ensures SpansFrom(bs, s, [(s, e)] + rest, threshold, clock)
  {
  }

  lemma SpansEarlier(bs: seq<Build>, s: nat, n: nat, rest: seq<(nat, nat)>, threshold: int, clock: Clock)
    requires s <= n && SpansFrom(bs, n, rest, threshold, clock)
    ensures SpansFrom(bs, s, rest, threshold, clock)
  {
  }

  lemma {:induction false} ExceededFromOrdered(bs: seq<Build>, s: nat, threshold: int, clock: Clock)
    requires StartsSeries(bs, s)
    ensures SpansFrom(bs, s, ExceededFrom(bs, s, threshold, clock), threshold, clock)
    decreases |bs| - s
  {
    NothingLeft(bs, threshold, clock);
    if s < |bs| {
      var e, n := SeriesEnd(bs, s), Next(bs, s);
      SeriesEndIsEnd(bs, s);
      NextIsBehind(bs, s);
      if e < |bs| {
        ExceededFromOrdered(bs, n, threshold, clock);
      }
      OrderedStep(bs, s, e, n, threshold, clock);
    }
  }

  lemma OrderedStep(bs: seq<Build>, s: nat, e: nat, n: nat, threshold: int, clock: Clock)
    requires s < |bs| && IsSeries(bs, s, e) && e == SeriesEnd(bs, s) && n == Next(bs, s)
    requires SpansFrom(bs, n, ExceededFrom(bs, n, threshold, clock), threshold, clock)
    ensures SpansFrom(bs, s, ExceededFrom(bs, s, threshold, clock), threshold, clock)
  {
    var rest := ExceededFrom(bs, n, threshold, clock);
    ExceededStep(bs, s, threshold, clock);
    NextIsBehind(bs, s);
    NothingLeft(bs, threshold, clock);
    if ExceededAt(bs, s, threshold, clock) {
      SpansCons(bs, s, e, n, rest, threshold, clock);
    } else {
      SpansEarlier(bs, s, n, rest, threshold, clock);
      assert ExceededFrom(bs, s, threshold, clock) == rest;
    }
  }

  ghost predicate HasSpan(bs: seq<Build>, s: nat, x: nat, y: nat, threshold: int, clock: Clock) {
    s <= |bs| && (x, y) in ExceededFrom(bs, s, threshold, clock)
  }

  lemma SpanHere(bs: seq<Build>, s: nat, y: nat, threshold: int, clock: Clock)
    requires StartsSeries(bs, s) && ExceededSeries(bs, s, y, threshold, clock)
    ensures HasSpan(bs, s, s, y, threshold, clock)
  {
    SeriesEndIsEnd(bs, s);
    SameStart(bs, s, SeriesEnd(bs, s), y);
    assert ExceededFrom(bs, s, threshold, clock)[0] == (s, y);
  }

  lemma SpanThere(bs: seq<Build>, s: nat, n: nat, x: nat, y: nat, threshold: int, clock: Clock)
    requires s <= |bs| && SeriesEnd(bs, s) < |bs| && n == SeriesEnd(bs, s) + 1
    requires HasSpan(bs, n, x, y, threshold, clock)
    ensures HasSpan(bs, s, x, y, threshold, clock)
  {
    var later := ExceededFrom(bs, n, threshold, clock);
    var own := if ExceededAt(bs, s, threshold, clock) then [(s, SeriesEnd(bs, s))] else [];
    assert ExceededFrom(bs, s, threshold, clock) == own + later;
  }

  lemma {:induction false} ExceededFromComplete(bs: seq<Build>, s: nat, x: nat, y: nat, threshold: int, clock: Clock)
    requires StartsSeries(bs, s) && s <= x && ExceededSeries(bs, x, y, threshold, clock)
    ensures HasSpan(bs, s, x, y, threshold, clock)
    decreases |bs| - s
  {
    if x == s {
      SpanHere(bs, s, y, threshold, clock);
    } else {
      var e := SeriesEnd(bs, s);
      var n := e + 1;
      SeriesEndIsEnd(bs, s);
      NextSeries(bs, s, e, x, y);
      ExceededFromComplete(bs, n, x, y, threshold, clock);
      SpanThere(bs, s, n, x, y, threshold, clock);
    }
  }

  /** ---- Their incidents ---- */

  lemma {:induction false} LastPassedIsLast(bs: seq<Build>, f: nat, start: int)
    requires AllCreated(bs) && f <= |bs|
    ensures IsLastPassed(bs, f, LastPassed(bs[..f], start), start)
  {
    if f > 0 {
      assert bs[..f][..f - 1] == bs[..f - 1] && bs[..f][f - 1] == bs[f - 1];
      if !IsBuildPassed(bs[f - 1]) {
        LastPassedIsLast(bs, f - 1, start);
      }
    }
  }

  lemma FirstFailedIsFirst(bs: seq<Build>, s: nat, clock: Clock)
    requires s <= |bs| && FirstFailed(bs[s..], clock) < |bs[s..]|
    ensures IsFirstFailed(bs, s, s + FirstFailed(bs[s..], clock), clock)
  {
    var f, rest := FirstFailed(bs[s..], clock), bs[s..];
    assert bs[s + f] == rest[f];
    forall i | s <= i < s + f ensures !IsBuildFailed(bs[i], clock) {
      assert bs[i] == rest[i - s];
    }
  }

  lemma IncidentByIndex(bs: seq<Build>, s: nat, e: nat, run: seq<Build>, f: nat, time: int,
                        clock: Clock, cal: Calendar, start: int)
    requires AllCreated(bs) && s <= e <= |bs| && run != [] && AllCreated(run)
    requires var idx := CountedIndices(bs, s, e, clock);
             |run| == |idx| && forall k :: 0 <= k < |idx| ==> run[k] == bs[idx[k]]
    requires IsFirstFailed(bs, s, f, clock) && IsLastPassed(bs, f, time, start)
    ensures IsIncident(bs, s, e, IncidentOf(run, time, cal), clock, cal, start)
  {
    var idx := CountedIndices(bs, s, e, clock);
    assert run[|run| - 1] == bs[idx[|idx| - 1]];
  }

  // The entry of an exceeded series is its incident.
  lemma IncidentOfSeries(bs: seq<Build>, s: nat, f: nat, threshold: int, clock: Clock, cal: Calendar, start: int)
    requires AllCreated(bs) && s <= |bs| && Exceeds(FirstRun(bs[s..], clock), threshold)
    requires f == s + FirstFailed(bs[s..], clock)
    ensures AllCreated(FirstRun(bs[s..], clock)) && f <= |bs|
    ensures IsIncident(bs, s, SeriesEnd(bs, s), IncidentOf(FirstRun(bs[s..], clock), LastPassed(bs[..f], start), cal),
                       clock, cal, start)
  {
    FirstRunCreated(bs[s..], clock);
    ExceededRunFails(bs[s..], threshold, clock);
    RunOfSeries(bs, s, clock);
    FirstFailedIsFirst(bs, s, clock);
    LastPassedIsLast(bs, f, start);
    var run, time := FirstRun(bs[s..], clock), LastPassed(bs[..f], start);
    IncidentByIndex(bs, s, SeriesEnd(bs, s), run, f, time, clock, cal, start);
  }

  ghost predicate EntriesOf(bs: seq<Build>, spans: seq<(nat, nat)>, entries: seq<Entry>, clock: Clock, cal: Calendar,
                            start: int)
    requires AllCreated(bs)
  {
    && |spans| == |entries|
    && forall k :: 0 <= k < |spans| ==>
         spans[k].0 <= spans[k].1 <= |bs| && IsIncident(bs, spans[k].0, spans[k].1, entries[k], clock, cal, start)
  }

  lemma EntriesCons(bs: seq<Build>, s: nat, e: nat, entry: Entry, spans: seq<(nat, nat)>, entries: seq<Entry>,
                    clock: Clock, cal: Calendar, start: int)
    requires AllCreated(bs) && s <= e <= |bs| && IsIncident(bs, s, e, entry, clock, cal, start)
    requires EntriesOf(bs, spans, entries, clock, cal, start)
    ensures EntriesOf(bs, [(s, e)] + spans, [entry] + entries, clock, cal, start)
  {
    var sp, en := [(s, e)] + spans, [entry] + entries;
    forall k | 0 <= k < |sp|
      ensures sp[k].0 <= sp[k].1 <= |bs| && IsIncident(bs, sp[k].0, sp[k].1, en[k], clock, cal, start)
    {
      if k > 0 {
        assert sp[k] == spans[k - 1] && en[k] == entries[k - 1];
      }
    }
  }

  // The position behind a series, and what is left there.
  lemma NextIsBehind(bs: seq<Build>, s: nat)
    requires s < |bs|
    ensures Next(bs, s) == if SeriesEnd(bs, s) < |bs| then SeriesEnd(bs, s) + 1 else |bs|
  {
  }

  lemma {:induction false} IncidentsFromExact(bs: seq<Build>, s: nat, threshold: int, clock: Clock, cal: Calendar,
                                              start: int)
    requires AllCreated(bs) && s <= |bs|
    ensures EntriesOf(bs, ExceededFrom(bs, s, threshold, clock), IncidentsFrom(bs, s, threshold, clock, cal, start),
                      clock, cal, start)
    decreases |bs| - s
  {
    if s == |bs| {
      NothingLeft(bs, threshold, clock);
    } else {
      IncidentsFromExact(bs, Next(bs, s), threshold, clock, cal, start);
      IncidentsStep(bs, s, threshold, clock, cal, start);
    }
  }

  lemma NothingLeft(bs: seq<Build>, threshold: int, clock: Clock)
    ensures ExceededFrom(bs, |bs|, threshold, clock) == [] && FlakyFrom(bs, |bs|, threshold, clock) == []
  {
  }

  lemma ExceededStep(bs: seq<Build>, s: nat, threshold: int, clock: Clock)
    requires s < |bs|
    ensures ExceededFrom(bs, s, threshold, clock) ==
            (if ExceededAt(bs, s, threshold, clock) then [(s, SeriesEnd(bs, s))] else []) +
            ExceededFrom(bs, Next(bs, s), threshold, clock)
  {
    NextIsBehind(bs, s);
    NothingLeft(bs, threshold, clock);
  }

  lemma IncidentsStep(bs: seq<Build>, s: nat, threshold: int, clock: Clock, cal: Calendar, start: int)
    requires AllCreated(bs) && s < |bs|
    requires EntriesOf(bs, ExceededFrom(bs, Next(bs, s), threshold, clock),
                       IncidentsFrom(bs, Next(bs, s), threshold, clock, cal, start), clock, cal, start)
    ensures EntriesOf(bs, ExceededFrom(bs, s, threshold, clock), IncidentsFrom(bs, s, threshold, clock, cal, start),
                      clock, cal, start)
  {
    ExceededStep(bs, s, threshold, clock);
    IncidentsOfBatch(bs, s, threshold, clock, cal, start);
    RunOfSeries(bs, s, clock);
    var spans := ExceededFrom(bs, Next(bs, s), threshold, clock);
    var entries := IncidentsFrom(bs, Next(bs, s), threshold, clock, cal, start);
    var run, f := FirstRun(bs[s..], clock), s + FirstFailed(bs[s..], clock);
    if Exceeds(run, threshold) {
      IncidentOfSeries(bs, s, f, threshold, clock, cal, start);
      var entry := IncidentOf(run, LastPassed(bs[..f], start), cal);
      EntriesCons(bs, s, SeriesEnd(bs, s), entry, spans, entries, clock, cal, start);
    } else {
      assert ExceededFrom(bs, s, threshold, clock) == spans;
      assert IncidentsFrom(bs, s, threshold, clock, cal, start) == entries;
    }
  }

  /** ---- Flakes ---- */

  // The failures of the series from s on that are not exceeded, by index.
  function FlakyFrom(bs: seq<Build>, s: nat, threshold: int, clock: Clock): seq<nat>
    requires s <= |bs|
    decreases |bs| - s
  {
    var e := SeriesEnd(bs, s);
    (if ExceededAt(bs, s, threshold, clock) then [] else CountedIndices(bs, s, e, clock)) +
    if e < |bs| then FlakyFrom(bs, e + 1, threshold, clock) else []
  }

  // The builds at the given indices.
  ghost predicate At(bs: seq<Build>, idx: seq<nat>, these: seq<Build>) {
    |these| == |idx| && forall k :: 0 <= k < |idx| ==> idx[k] < |bs| && these[k] == bs[idx[k]]
  }

  lemma FlakyStep(bs: seq<Build>, s: nat, threshold: int, clock: Clock)
    requires s < |bs|
    ensures FlakyFrom(bs, s, threshold, clock) ==
            (if ExceededAt(bs, s, threshold, clock) then [] else CountedIndices(bs, s, SeriesEnd(bs, s), clock)) +
            FlakyFrom(bs, Next(bs, s), threshold, clock)
  {
    NextIsBehind(bs, s);
    NothingLeft(bs, threshold, clock);
  }

  lemma {:induction false} FlakyByIndex(bs: seq<Build>, s: nat, threshold: int, clock: Clock)
    requires s <= |bs|
    ensures At(bs, FlakyFrom(bs, s, threshold, clock), FlakesFrom(bs, s, threshold, clock))
    decreases |bs| - s
  {
    if s == |bs| {
      NothingLeft(bs, threshold, clock);
      assert bs[|bs|..] == [];
    } else {
      FlakyByIndex(bs, Next(bs, s), threshold, clock);
      FlakyByIndexStep(bs, s, Next(bs, s), threshold, clock);
    }
  }

  lemma AtConcat(bs: seq<Build>, i1: seq<nat>, b1: seq<Build>, i2: seq<nat>, b2: seq<Build>)
    requires At(bs, i1, b1) && At(bs, i2, b2)
    ensures At(bs, i1 + i2, b1 + b2)
  {
  }

  lemma FlakyByIndexStep(bs: seq<Build>, s: nat, n: nat, threshold: int, clock: Clock)
    requires s < |bs| && n == Next(bs, s)
    requires At(bs, FlakyFrom(bs, n, threshold, clock), FlakesFrom(bs, n, threshold, clock))
    ensures At(bs, FlakyFrom(bs, s, threshold, clock), FlakesFrom(bs, s, threshold, clock))
  {
    var idx, run := CountedIndices(bs, s, SeriesEnd(bs, s), clock), FirstRun(bs[s..], clock);
    RunOfSeries(bs, s, clock);
    assert At(bs, idx, run) && At(bs, [], []);
    FlakyStep(bs, s, threshold, clock);
    FlakesOfBatch(bs, s, threshold, clock);
    if Exceeds(run, threshold) {
      AtConcat(bs, [], [], FlakyFrom(bs, n, threshold, clock), FlakesFrom(bs, n, threshold, clock));
    } else {
      AtConcat(bs, idx, run, FlakyFrom(bs, n, threshold, clock), FlakesFrom(bs, n, threshold, clock));
    }
  }

  lemma {:induction false} FlakyAscends(bs: seq<Build>, s: nat, threshold: int, clock: Clock)
    requires s <= |bs|
    ensures var idx := FlakyFrom(bs, s, threshold, clock);
            && (forall i, j :: 0 <= i < j < |idx| ==> idx[i] < idx[j])
            && (forall k :: 0 <= k < |idx| ==> s <= idx[k])
    decreases |bs| - s
  {
    if s == |bs| {
      NothingLeft(bs, threshold, clock);
    } else {
      FlakyAscends(bs, Next(bs, s), threshold, clock);
      FlakyStep(bs, s, threshold, clock);
      NextIsBehind(bs, s);
      CountedIndicesExact(bs, s, SeriesEnd(bs, s), clock);
    }
  }

  // Within one series.
  lemma FlakeInSeries(bs: seq<Build>, s: nat, e: nat, i: nat, threshold: int, clock: Clock)
    requires IsSeries(bs, s, e) && s <= i < e
    ensures IsFlake(bs, i, threshold, clock) <==> Counts(bs[i], clock) && !ExceededSeries(bs, s, e, threshold, clock)
  {
    if IsFlake(bs, i, threshold, clock) {
      var s': nat, e': nat :| IsSeries(bs, s', e') && s' <= i < e' && !ExceededSeries(bs, s', e', threshold, clock);
      SameSeries(bs, i, s, e, s', e');
    }
  }

  // What a series contributes itself.
  function OwnFlakes(bs: seq<Build>, s: nat, threshold: int, clock: Clock): seq<nat>
    requires s <= |bs|
  {
    if ExceededAt(bs, s, threshold, clock) then [] else CountedIndices(bs, s, SeriesEnd(bs, s), clock)
  }

  lemma OwnFlakeIff(bs: seq<Build>, s: nat, i: nat, threshold: int, clock: Clock)
    requires s <= |bs|
    ensures i in OwnFlakes(bs, s, threshold, clock) <==>
            s <= i < SeriesEnd(bs, s) && Counts(bs[i], clock) && !ExceededAt(bs, s, threshold, clock)
  {
    CountedIndicesExact(bs, s, SeriesEnd(bs, s), clock);
  }

  lemma FlakyParts(bs: seq<Build>, s: nat, n: nat, i: nat, threshold: int, clock: Clock)
    requires s < |bs| && n == Next(bs, s)
    ensures i in FlakyFrom(bs, s, threshold, clock) <==>
            i in OwnFlakes(bs, s, threshold, clock) || i in FlakyFrom(bs, n, threshold, clock)
  {
    FlakyStep(bs, s, threshold, clock);
    var own, later := OwnFlakes(bs, s, threshold, clock), FlakyFrom(bs, n, threshold, clock);
    assert FlakyFrom(bs, s, threshold, clock) == own + later;
  }

  // The index is listed from s on exactly when it is a flake.
  ghost predicate ListedRightly(bs: seq<Build>, s: nat, i: nat, threshold: int, clock: Clock) {
    s <= |bs| && (i in FlakyFrom(bs, s, threshold, clock) <==> IsFlake(bs, i, threshold, clock))
  }

  lemma FlakyHere(bs: seq<Build>, s: nat, e: nat, i: nat, threshold: int, clock: Clock)
    requires IsSeries(bs, s, e) && e == SeriesEnd(bs, s) && s <= i <= e && i < |bs|
    ensures ListedRightly(bs, s, i, threshold, clock)
  {
    NextIsBehind(bs, s);
    FlakyParts(bs, s, Next(bs, s), i, threshold, clock);
    OwnFlakeIff(bs, s, i, threshold, clock);
    NotLater(bs, Next(bs, s), i, threshold, clock);
    FlakeUpTo(bs, s, e, i, threshold, clock);
  }

  lemma FlakyThere(bs: seq<Build>, s: nat, e: nat, n: nat, i: nat, threshold: int, clock: Clock)
    requires s <= |bs| && s <= e < i && e == SeriesEnd(bs, s) && e < |bs| && n == e + 1
    requires ListedRightly(bs, n, i, threshold, clock)
    ensures ListedRightly(bs, s, i, threshold, clock)
  {
    NextIsBehind(bs, s);
    FlakyParts(bs, s, n, i, threshold, clock);
    OwnFlakeIff(bs, s, i, threshold, clock);
  }

  lemma FlakyOutside(bs: seq<Build>, s: nat, i: nat, threshold: int, clock: Clock)
    requires s <= |bs| <= i
    ensures ListedRightly(bs, s, i, threshold, clock)
  {
    FlakyByIndex(bs, s, threshold, clock);
  }

  lemma {:induction false} FlakyMember(bs: seq<Build>, s: nat, i: nat, threshold: int, clock: Clock)
    requires StartsSeries(bs, s) && s <= i
    ensures ListedRightly(bs, s, i, threshold, clock)
    decreases |bs| - s
  {
    if i >= |bs| {
      FlakyOutside(bs, s, i, threshold, clock);
    } else {
      var e := SeriesEnd(bs, s);
      var n := e + 1;
      SeriesEndIsEnd(bs, s);
      if i <= e {
        FlakyHere(bs, s, e, i, threshold, clock);
      } else {
        FlakyMember(bs, n, i, threshold, clock);
        FlakyThere(bs, s, e, n, i, threshold, clock);
      }
    }
  }

  lemma NotLater(bs: seq<Build>, n: nat, i: nat, threshold: int, clock: Clock)
    requires n <= |bs| && i < n
    ensures i !in FlakyFrom(bs, n, threshold, clock)
  {
    FlakyAscends(bs, n, threshold, clock);
  }

  lemma FlakeUpTo(bs: seq<Build>, s: nat, e: nat, i: nat, threshold: int, clock: Clock)
    requires IsSeries(bs, s, e) && e == SeriesEnd(bs, s) && s <= i <= e && i < |bs|
    ensures IsFlake(bs, i, threshold, clock) <==> i < e && Counts(bs[i], clock) && !ExceededAt(bs, s, threshold, clock)
  {
    if i < e {
      FlakeInSeries(bs, s, e, i, threshold, clock);
    }
  }

  /** ---- The report ---- */

  ghost predicate FlakesAre(bs: seq<Build>, flakes: map<Day, int>, threshold: int, clock: Clock, cal: Calendar)
    requires AllCreated(bs)
  {
    exists idx, entries ::
      AreFlakes(bs, idx, threshold, clock) && CountDays(bs, idx, entries, cal) && flakes == Total(entries)
  }

  ghost predicate IncidentsAre(bs: seq<Build>, incidents: map<Day, int>, threshold: int, clock: Clock, cal: Calendar,
                               start: int)
    requires AllCreated(bs)
  {
    exists spans, entries ::
      AreIncidents(bs, spans, entries, threshold, clock, cal, start) && incidents == Total(entries)
  }

  lemma FlakesInOrder(bs: seq<Build>, s: nat, threshold: int, clock: Clock)
    requires s == 0
    ensures AreFlakes(bs, FlakyFrom(bs, s, threshold, clock), threshold, clock)
  {
    FlakyAscends(bs, s, threshold, clock);
    forall i: nat ensures i in FlakyFrom(bs, s, threshold, clock) <==> IsFlake(bs, i, threshold, clock) {
      FlakyMember(bs, s, i, threshold, clock);
      assert ListedRightly(bs, s, i, threshold, clock);
    }
  }

  lemma FlakesExact(bs: seq<Build>, threshold: int, clock: Clock, cal: Calendar)
    requires AllCreated(bs) && AllCreated(Flaky(Runs(bs, clock), threshold))
    ensures FlakesAre(bs, Total(Ones(Flaky(Runs(bs, clock), threshold), cal)), threshold, clock, cal)
  {
    var idx, ones := FlakyFrom(bs, 0, threshold, clock), Ones(Flaky(Runs(bs, clock), threshold), cal);
    FlakesInOrder(bs, 0, threshold, clock);
    FlakyByIndex(bs, 0, threshold, clock);
    assert bs[0..] == bs;
    assert CountDays(bs, idx, ones, cal);
  }

  lemma IncidentsExact(bs: seq<Build>, threshold: int, clock: Clock, cal: Calendar, start: int)
    requires AllCreated(bs)
    ensures IncidentsAre(bs, Total(IncidentsFrom(bs, 0, threshold, clock, cal, start)), threshold, clock, cal, start)
  {
    var spans := ExceededFrom(bs, 0, threshold, clock);
    var entries := IncidentsFrom(bs, 0, threshold, clock, cal, start);
    ExceededFromOrdered(bs, 0, threshold, clock);
    IncidentsFromExact(bs, 0, threshold, clock, cal, start);
    forall s: nat, e: nat | ExceededSeries(bs, s, e, threshold, clock) ensures (s, e) in spans {
      ExceededFromComplete(bs, 0, s, e, threshold, clock);
      assert HasSpan(bs, 0, s, e, threshold, clock);
    }
    assert AreIncidents(bs, spans, entries, threshold, clock, cal, start);
  }

  /** The report is exact: every build on its day; every failure of a series that is not exceeded on its
      day; and for every exceeded series, and no other, the minutes from the last passed build before
      its first failed one back to its oldest failure, on the day of that failure.  The source reads
      every build's creation time. */
  method GenerateHistory(builds: seq<Build>, windowStart: int, threshold: int, clock: Clock, cal: Calendar)
    returns (totals: map<Day, int>, flakes: map<Day, int>, incidents: map<Day, int>)
    requires AllCreated(builds)
    ensures totals == Total(Ones(builds, cal))
    ensures FlakesAre(builds, flakes, threshold, clock, cal)
    ensures IncidentsAre(builds, incidents, threshold, clock, cal, windowStart)
    ensures var flaky := Flaky(Runs(builds, clock), threshold); AllCreated(flaky) && flakes == Total(Ones(flaky, cal))
  {
    totals, flakes, incidents := ScanHistory(builds, windowStart, threshold, clock, cal);
    FlakesExact(builds, threshold, clock, cal);
    IncidentsExact(builds, threshold, clock, cal, windowStart);
  }
}
