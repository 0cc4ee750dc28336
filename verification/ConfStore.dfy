/**
  The in-memory configuration store (internal/conf/store.go).  `Cell` is the
  mutable store; `Store` is its value, and `Offer` what one MaybeUpdate call does
  to that value.
 */
module ConfStore {
  import opened Options
  import opened SiteConfig

  datatype Store = Store(raw: RawUnified, lastValid: Option<Unified>, ready: bool)

  datatype UpdateResult = UpdateResult(changed: bool, before: Option<Unified>, after: Option<Unified>)

  datatype UpdateError = EmptySite | Unparsable

  const NEW_STORE := Store(RawUnified(0, "", map[]), None, false)

  // A configuration the store looks at: not empty, and not what it already holds.
  predicate Accepts(s: Store, r: RawUnified) {
    r.site != "" && !s.raw.Equal(r)
  }

  function Offer(s: Store, r: RawUnified, unmarshal: Unmarshal): (s': Store)
    ensures s.ready ==> s'.ready
  {
    if !Accepts(s, r) then s
    else match ParseConfig(r, unmarshal)
      case None => s.(raw := r)
      case Some(cfg) => Store(r, Some(cfg), true)
  }

  // Whether the offer replaces lastValid.
  predicate Publishes(s: Store, r: RawUnified, unmarshal: Unmarshal) {
    Accepts(s, r) && ParseConfig(r, unmarshal).Some?
  }

  class Cell {
    const unmarshal: Unmarshal
    var raw: RawUnified
    var lastValid: Option<Unified>
    var ready: bool

    function Value(): Store
      reads this
    {
      Store(raw, lastValid, ready)
    }

    constructor (unmarshal: Unmarshal)
      ensures this.unmarshal == unmarshal && Value() == NEW_STORE
    {
      this.unmarshal := unmarshal;
      raw, lastValid, ready := RawUnified(0, "", map[]), None, false;
    }

    // `raw` is overwritten before the text is known to parse.
    method MaybeUpdate(rawConfig: RawUnified) returns (result: UpdateResult, err: Option<UpdateError>)
      modifies this
      ensures Value() == Offer(old(Value()), rawConfig, unmarshal)
      ensures result.changed <==> Publishes(old(Value()), rawConfig, unmarshal)
      ensures result.before == old(lastValid) && result.after == lastValid
      ensures err == Some(EmptySite) <==> rawConfig.site == ""
      ensures err == Some(Unparsable) <==>
              old(Accepts(Value(), rawConfig)) && ParseConfig(rawConfig, unmarshal).None?
    {
      result := UpdateResult(false, lastValid, lastValid);
      if rawConfig.site == "" {
        return result, Some(EmptySite);
      }
      if raw.Equal(rawConfig) {
        return result, None;
      }
      raw := rawConfig;
      var newConfig := ParseConfig(rawConfig, unmarshal);
      if newConfig.None? {
        return result, Some(Unparsable);
      }
      result := result.(changed := true, after := newConfig);
      lastValid := newConfig;
      ready := true;
      return result, None;
    }
  }

  // The store after a whole run of offers.
  function Run(offers: seq<RawUnified>, unmarshal: Unmarshal): Store {
    if offers == [] then NEW_STORE
    else Offer(Run(offers[..|offers| - 1], unmarshal), offers[|offers| - 1], unmarshal)
  }

  // Reference: the newest offer with text.
  function NewestOffer(offers: seq<RawUnified>): Option<RawUnified> {
    if offers == [] then None
    else if offers[|offers| - 1].site != "" then Some(offers[|offers| - 1])
    else NewestOffer(offers[..|offers| - 1])
  }

  // Reference: the parse of the newest offer with text that parses.
  function NewestParse(offers: seq<RawUnified>, unmarshal: Unmarshal): Option<Unified> {
    if offers == [] then None
    else
      var newest := offers[|offers| - 1];
      if newest.site != "" && ParseConfig(newest, unmarshal).Some? then ParseConfig(newest, unmarshal)
      else NewestParse(offers[..|offers| - 1], unmarshal)
  }

  // What the store remembers agrees with itself: a raw text that parses is the one published.
  predicate Coherent(s: Store, unmarshal: Unmarshal) {
    && (s.ready <==> s.lastValid.Some?)
    && (s.raw.site != "" && ParseConfig(s.raw, unmarshal).Some? ==> s.lastValid == ParseConfig(s.raw, unmarshal))
  }

  lemma OfferKeepsCoherent(s: Store, r: RawUnified, unmarshal: Unmarshal)
    requires Coherent(s, unmarshal)
    ensures Coherent(Offer(s, r, unmarshal), unmarshal)
    ensures r.site != "" && ParseConfig(r, unmarshal).Some? ==>
              Offer(s, r, unmarshal).lastValid == ParseConfig(r, unmarshal)
  {
  }

  /** The store never serves anything but the parse of the newest offered text that parses,
      and holds the newest offered text, whatever unparsable or repeated texts came between. */
  lemma {:induction false} StoreTracksNewest(offers: seq<RawUnified>, unmarshal: Unmarshal)
    ensures Coherent(Run(offers, unmarshal), unmarshal)
    ensures Run(offers, unmarshal).lastValid == NewestParse(offers, unmarshal)
    ensures NewestOffer(offers).None? ==> Run(offers, unmarshal) == NEW_STORE
    ensures NewestOffer(offers).Some? ==> Run(offers, unmarshal).raw.Equal(NewestOffer(offers).value)
  {
    if offers != [] {
      var earlier := offers[..|offers| - 1];
      StoreTracksNewest(earlier, unmarshal);
      OfferKeepsCoherent(Run(earlier, unmarshal), offers[|offers| - 1], unmarshal);
    }
  }

  /** The row id is not tracked: a text that returns unchanged under a new id leaves the old id. */
  lemma RawIdMayLag(unmarshal: Unmarshal)
    ensures var offers := [RawUnified(1, "{}", map[]), RawUnified(2, "{}", map[])];
            NewestOffer(offers).value.id == 2 && Run(offers, unmarshal).raw.id == 1
  {
    var a, b := RawUnified(1, "{}", map[]), RawUnified(2, "{}", map[]);
    assert [a, b][..1] == [a] && [a][..0] == [];
    assert Run([a], unmarshal) == Offer(NEW_STORE, a, unmarshal);
    assert Run([a], unmarshal).raw == a;
  }

  /** Exactly when the store ends up holding the offered configuration, id included. */
  lemma RawIsOfferIff(s: Store, r: RawUnified, unmarshal: Unmarshal)
    requires r.site != ""
    ensures Offer(s, r, unmarshal).raw == r <==> !s.raw.Equal(r) || s.raw.id == r.id
  {
  }
}
