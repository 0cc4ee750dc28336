/**
  What redacting and unredacting promise together (internal/conf/validate.go), for any list
  of secret paths of which none leads into another or into "auth.providers".
 */
module RedactionTheorems {
  import opened Options
  import opened Json
  import opened Providers
  import opened Redaction

  predicate ApartFromAll(q: Path, paths: seq<Path>) {
    forall i :: 0 <= i < |paths| ==> Apart(q, paths[i])
  }

  predicate Separate(paths: seq<Path>) {
    && (forall i, j :: 0 <= i < j < |paths| ==> Apart(paths[i], paths[j]))
    && ApartFromAll(AUTH_PROVIDERS, paths)
  }

  /** The real list of secrets is such a list. */
  lemma SiteConfigSecretsAreSeparate()
    ensures Separate(SITE_CONFIG_SECRETS)
  {
    var ps := SITE_CONFIG_SECRETS;
    forall i | 0 <= i < |ps| ensures Apart(AUTH_PROVIDERS, ps[i]) {
      assert ps[i][0] != AUTH_PROVIDERS[0];
    }
    forall i, j | 0 <= i < j < |ps| ensures Apart(ps[i], ps[j]) {
      var p, q := ps[i], ps[j];
      assert Diverge(p, q, 0) || Diverge(p, q, 1) || Diverge(p, q, 2) || Diverge(p, q, 3);
    }
  }

  predicate Diverge(p: Path, q: Path, k: nat) {
    k < |p| && k < |q| && p[k] != q[k]
  }

  /** ---- One path at a time ---- */

  // What redaction leaves at a listed path.
  function Shown(here: Option<Value>, original: Option<Value>, mask: Mask): Option<Value> {
    if here.None? || here == Some(Str("")) || original.None? || !original.value.Str? then here
    else Some(Str(mask(original.value.s)))
  }

  // What unredaction leaves at a listed path.
  function Restored(here: Option<Value>, original: Option<Value>): Option<Value> {
    if here.None? || (here.value.Str? && here.value.s != REDACTED) || original.None? || !original.value.Str? then here
    else original
  }

  lemma RedactPathReads(site: Value, raw: Value, path: Path, mask: Mask)
    ensures ReadProperty(RedactPath(site, raw, path, mask), path) ==
            Shown(ReadProperty(site, path), ReadProperty(raw, path), mask)
    ensures forall q :: Apart(path, q) ==>
              ReadProperty(RedactPath(site, raw, path, mask), q) == ReadProperty(site, q)
  {
    if ReadProperty(site, path).Some? {
      match ReadProperty(raw, path)
      case Some(Str(secret)) =>
        var x := Str(mask(secret));
        ExistingIsEditable(site, path, x);
        ReadOwnEdit(site, path, x);
        forall q | Apart(path, q) ensures ReadProperty(Edit(site, path, x).value, q) == ReadProperty(site, q) {
          ReadOtherEdit(site, path, x, q);
        }
      case _ =>
    }
  }

  lemma UnredactPathReads(site: Value, raw: Value, path: Path)
    ensures ReadProperty(UnredactPath(site, raw, path), path) ==
            Restored(ReadProperty(site, path), ReadProperty(raw, path))
    ensures forall q :: Apart(path, q) ==>
              ReadProperty(UnredactPath(site, raw, path), q) == ReadProperty(site, q)
  {
    if ReadProperty(site, path).Some? {
      match ReadProperty(raw, path)
      case Some(Str(secret)) =>
        var x := Str(secret);
        ExistingIsEditable(site, path, x);
        ReadOwnEdit(site, path, x);
        forall q | Apart(path, q) ensures ReadProperty(Edit(site, path, x).value, q) == ReadProperty(site, q) {
          ReadOtherEdit(site, path, x, q);
        }
      case _ =>
    }
  }

  /** ---- The whole fold, location by location ---- */

  lemma {:induction false} RedactPathsElsewhere(site: Value, raw: Value, paths: seq<Path>, mask: Mask, q: Path)
    requires ApartFromAll(q, paths)
    ensures ReadProperty(RedactPaths(site, raw, paths, mask), q) == ReadProperty(site, q)
    decreases |paths|
  {
    if paths != [] {
      assert Apart(q, paths[0]);
      RedactPathReads(site, raw, paths[0], mask);
      RedactPathsElsewhere(RedactPath(site, raw, paths[0], mask), raw, paths[1..], mask, q);
    }
  }

  lemma {:induction false} UnredactPathsElsewhere(site: Value, raw: Value, paths: seq<Path>, q: Path)
    requires ApartFromAll(q, paths)
    ensures ReadProperty(UnredactPaths(site, raw, paths), q) == ReadProperty(site, q)
    decreases |paths|
  {
    if paths != [] {
      assert Apart(q, paths[0]);
      UnredactPathReads(site, raw, paths[0]);
      UnredactPathsElsewhere(UnredactPath(site, raw, paths[0]), raw, paths[1..], q);
    }
  }

  lemma SeparateTail(paths: seq<Path>)
    requires Separate(paths) && paths != []
    ensures Separate(paths[1..]) && ApartFromAll(paths[0], paths[1..])
  {
    var rest := paths[1..];
    forall i, j | 0 <= i < j < |rest| ensures Apart(rest[i], rest[j]) {
      assert Apart(paths[i + 1], paths[j + 1]);
    }
    forall i | 0 <= i < |rest| ensures Apart(AUTH_PROVIDERS, rest[i]) && Apart(paths[0], rest[i]) {
      assert Apart(AUTH_PROVIDERS, paths[i + 1]) && Apart(paths[0], paths[i + 1]);
    }
  }

  lemma {:induction false} RedactPathsAt(site: Value, raw: Value, paths: seq<Path>, mask: Mask, i: nat)
    requires Separate(paths) && i < |paths|
    ensures ReadProperty(RedactPaths(site, raw, paths, mask), paths[i]) ==
            Shown(ReadProperty(site, paths[i]), ReadProperty(raw, paths[i]), mask)
    decreases |paths|
  {
    SeparateTail(paths);
    var site1 := RedactPath(site, raw, paths[0], mask);
    RedactPathReads(site, raw, paths[0], mask);
    if i == 0 {
      RedactPathsElsewhere(site1, raw, paths[1..], mask, paths[0]);
    } else {
      assert Apart(paths[0], paths[i]);
      RedactPathsAt(site1, raw, paths[1..], mask, i - 1);
    }
  }

  lemma {:induction false} UnredactPathsAt(site: Value, raw: Value, paths: seq<Path>, i: nat)
    requires Separate(paths) && i < |paths|
    ensures ReadProperty(UnredactPaths(site, raw, paths), paths[i]) ==
            Restored(ReadProperty(site, paths[i]), ReadProperty(raw, paths[i]))
    decreases |paths|
  {
    SeparateTail(paths);
    var site1 := UnredactPath(site, raw, paths[0]);
    UnredactPathReads(site, raw, paths[0]);
    if i == 0 {
      UnredactPathsElsewhere(site1, raw, paths[1..], paths[0]);
    } else {
      assert Apart(paths[0], paths[i]);
      UnredactPathsAt(site1, raw, paths[1..], i - 1);
    }
  }

  /** ---- Unredacting undoes redacting ---- */

  // Redacting other paths commutes with an edit.
  lemma {:induction false} RedactPathsCommutes(site: Value, raw: Value, paths: seq<Path>, mask: Mask, p: Path, x: Value)
    requires ApartFromAll(p, paths) && Edit(site, p, x).Some?
    ensures Edit(RedactPaths(site, raw, paths, mask), p, x) ==
            Some(RedactPaths(Edit(site, p, x).value, raw, paths, mask))
    decreases |paths|
  {
    if paths != [] {
      var q := paths[0];
      assert Apart(p, q);
      RedactOneCommutes(site, raw, q, mask, p, x);
      RedactPathsCommutes(RedactPath(site, raw, q, mask), raw, paths[1..], mask, p, x);
    }
  }

  lemma RedactOneCommutes(site: Value, raw: Value, q: Path, mask: Mask, p: Path, x: Value)
    requires Apart(p, q) && Edit(site, p, x).Some?
    ensures Edit(RedactPath(site, raw, q, mask), p, x) == Some(RedactPath(Edit(site, p, x).value, raw, q, mask))
  {
    ReadOtherEdit(site, p, x, q);
    if ReadProperty(site, q).Some? {
      match ReadProperty(raw, q)
      case Some(Str(secret)) => EditsCommute(site, p, x, q, Str(mask(secret)));
      case _ =>
    }
  }

  lemma UnredactFirst(site: Value, raw: Value, p: Path, rest: seq<Path>)
    requires ApartFromAll(p, rest) && ReadProperty(site, p) == ReadProperty(raw, p)
    ensures UnredactPath(RedactPaths(RedactPath(site, raw, p, Constant), raw, rest, Constant), raw, p) ==
            RedactPaths(site, raw, rest, Constant)
  {
    var others := RedactPaths(site, raw, rest, Constant);
    RedactPathsElsewhere(site, raw, rest, Constant, p);
    match ReadProperty(site, p)
    case Some(Str(secret)) =>
      if secret != "" {
        var x := Str(REDACTED);
        ExistingIsEditable(site, p, x);
        assert RedactPath(site, raw, p, Constant) == Edit(site, p, x).value;
        RedactPathsCommutes(site, raw, rest, Constant, p, x);
        ReadOwnEdit(others, p, x);
        EditTwice(others, p, x, Str(secret));
        EditSame(others, p);
      }
    case _ =>
  }

  lemma {:induction false} RoundTripPaths(site: Value, raw: Value, paths: seq<Path>)
    requires Separate(paths)
    requires forall i :: 0 <= i < |paths| ==> ReadProperty(site, paths[i]) == ReadProperty(raw, paths[i])
    ensures UnredactPaths(RedactPaths(site, raw, paths, Constant), raw, paths) == site
    decreases |paths|
  {
    if paths != [] {
      SeparateTail(paths);
      UnredactFirst(site, raw, paths[0], paths[1..]);
      RoundTripPaths(site, raw, paths[1..]);
    }
  }

  // Providers that share a client id share their secret.
  predicate ConsistentIDs(ps: seq<Provider>) {
    forall i, j | 0 <= i < |ps| && 0 <= j < |ps| && ps[i].Client? && ps[j].Client? ::
      ps[i].clientID == ps[j].clientID ==> ps[i].secret == ps[j].secret
  }

  lemma {:induction false} OldSecretsKnows(ps: seq<Provider>, i: nat)
    requires i < |ps| && ps[i].Client?
    ensures ps[i].clientID in OldSecrets(ps)
    ensures exists j :: 0 <= j < |ps| && ps[j].Client? && ps[j].clientID == ps[i].clientID &&
                        OldSecrets(ps)[ps[i].clientID] == ps[j].secret
  {
    var n := |ps| - 1;
    if ps[n].Client? && ps[n].clientID == ps[i].clientID {
      assert OldSecrets(ps)[ps[i].clientID] == ps[n].secret;
    } else {
      OldSecretsKnows(ps[..n], i);
      var j :| 0 <= j < n && ps[..n][j].Client? && ps[..n][j].clientID == ps[i].clientID &&
               OldSecrets(ps[..n])[ps[i].clientID] == ps[..n][j].secret;
      assert ps[j] == ps[..n][j];
    }
  }

  /** Masking and restoring gives the providers back exactly when equal client ids mean equal secrets. */
  lemma ProvidersRestoredIff(ps: seq<Provider>)
    ensures RestoreProviders(MaskProviders(ps, Constant), OldSecrets(ps)) == ps <==> ConsistentIDs(ps)
  {
    var known := OldSecrets(ps);
    var back := RestoreProviders(MaskProviders(ps, Constant), known);
    forall i | 0 <= i < |ps| && ps[i].Client?
      ensures ps[i].clientID in known && back[i] == ps[i].(secret := known[ps[i].clientID])
    {
      OldSecretsKnows(ps, i);
    }
    if ConsistentIDs(ps) {
      forall i | 0 <= i < |ps| ensures back[i] == ps[i] {
        if ps[i].Client? {
          OldSecretsKnows(ps, i);
        }
      }
    }
    if back == ps {
      forall i, j | 0 <= i < |ps| && 0 <= j < |ps| && ps[i].Client? && ps[j].Client? && ps[i].clientID == ps[j].clientID
        ensures ps[i].secret == ps[j].secret
      {
        assert back[i] == ps[i] && back[j] == ps[j];
      }
    }
  }

  lemma ParseDependsOnProviders(a: Value, b: Value, schema: Schema)
    requires a.Obj? && b.Obj? && ReadProperty(a, AUTH_PROVIDERS) == ReadProperty(b, AUTH_PROVIDERS)
    ensures Parse(a, schema) == Parse(b, schema)
  {
  }

  lemma {:induction false} RedactPathsKeepsObject(site: Value, raw: Value, paths: seq<Path>, mask: Mask)
    requires site.Obj? && ApartFromAll(AUTH_PROVIDERS, paths)
    ensures RedactPaths(site, raw, paths, mask).Obj?
    decreases |paths|
  {
    if paths != [] {
      assert Apart(AUTH_PROVIDERS, paths[0]);
      RedactPathsKeepsObject(RedactPath(site, raw, paths[0], mask), raw, paths[1..], mask);
    }
  }

  lemma {:induction false} UnredactPathsKeepsObject(site: Value, raw: Value, paths: seq<Path>)
    requires site.Obj? && ApartFromAll(AUTH_PROVIDERS, paths)
    ensures UnredactPaths(site, raw, paths).Obj?
    decreases |paths|
  {
    if paths != [] {
      assert Apart(AUTH_PROVIDERS, paths[0]);
      UnredactPathsKeepsObject(UnredactPath(site, raw, paths[0]), raw, paths[1..]);
    }
  }

  function MaskedList(ps: Option<seq<Provider>>, mask: Mask): Option<seq<Provider>> {
    match ps case None => None case Some(list) => Some(MaskProviders(list, mask))
  }

  lemma BaseParses(raw: Value, mask: Mask, schema: Schema)
    requires raw.Obj? && Parse(raw, schema).Config?
    ensures var ps := Parse(raw, schema).providers;
            var base := RedactBase(raw, ps, mask);
            && base.Some? && base.value.Obj? && Parse(base.value, schema) == Config(MaskedList(ps, mask))
            && (forall x :: Edit(base.value, AUTH_PROVIDERS, x) == Edit(raw, AUTH_PROVIDERS, x))
            && (forall q :: Apart(AUTH_PROVIDERS, q) ==> ReadProperty(base.value, q) == ReadProperty(raw, q))
  {
    var ps := Parse(raw, schema).providers;
    if ListOf(ps) != [] {
      ParsedIsWellFormed(raw, schema);
      var masked := MaskedList(ps, mask);
      ParseEdited(raw, masked, schema);
      forall x ensures Edit(RedactBase(raw, ps, mask).value, AUTH_PROVIDERS, x) == Edit(raw, AUTH_PROVIDERS, x) {
        EditTwice(raw, AUTH_PROVIDERS, EncodeList(masked), x);
      }
      forall q | Apart(AUTH_PROVIDERS, q)
        ensures ReadProperty(RedactBase(raw, ps, mask).value, q) == ReadProperty(raw, q)
      {
        ReadOtherEdit(raw, AUTH_PROVIDERS, EncodeList(masked), q);
      }
    }
  }

  // The same providers in the same order, each client's secret masked and nothing else changed.
  predicate SecretsMasked(before: Option<seq<Provider>>, after: Option<seq<Provider>>, mask: Mask) {
    && (before.None? <==> after.None?)
    && |ListOf(after)| == |ListOf(before)|
    && forall i :: 0 <= i < |ListOf(before)| ==>
         var p := ListOf(before)[i];
         ListOf(after)[i] == if p.Client? then Client(p.kind, p.clientID, mask(p.secret), p.rest) else p
  }

  /** Redaction hides every provider secret and every listed secret and touches nothing else. */
  lemma RedactHides(raw: Value, paths: seq<Path>, mask: Mask, schema: Schema)
    requires raw.Obj? && Parse(raw, schema).Config? && Separate(paths)
    ensures var r := Redacted(raw, paths, mask, schema);
            && r.Ok? && r.value.Obj?
            && Parse(r.value, schema) == Config(MaskedList(Parse(raw, schema).providers, mask))
            && SecretsMasked(Parse(raw, schema).providers, Parse(r.value, schema).providers, mask)
            && (forall i :: 0 <= i < |paths| ==>
                  ReadProperty(r.value, paths[i]) ==
                  Shown(ReadProperty(raw, paths[i]), ReadProperty(raw, paths[i]), mask))
            && (forall q :: Apart(AUTH_PROVIDERS, q) && ApartFromAll(q, paths) ==>
                  ReadProperty(r.value, q) == ReadProperty(raw, q))
  {
    BaseParses(raw, mask, schema);
    var base := RedactBase(raw, Parse(raw, schema).providers, mask).value;
    var site := RedactPaths(base, raw, paths, mask);
    RedactPathsKeepsObject(base, raw, paths, mask);
    RedactPathsElsewhere(base, raw, paths, mask, AUTH_PROVIDERS);
    ParseDependsOnProviders(base, site, schema);
    forall i | 0 <= i < |paths|
      ensures ReadProperty(site, paths[i]) == Shown(ReadProperty(raw, paths[i]), ReadProperty(raw, paths[i]), mask)
    {
      assert Apart(AUTH_PROVIDERS, paths[i]);
      RedactPathsAt(base, raw, paths, mask, i);
    }
    forall q | Apart(AUTH_PROVIDERS, q) && ApartFromAll(q, paths)
      ensures ReadProperty(site, q) == ReadProperty(raw, q)
    {
      RedactPathsElsewhere(base, raw, paths, mask, q);
    }
  }

  // The providers the round trip ends with.
  function RoundTripped(ps: Option<seq<Provider>>): Option<seq<Provider>> {
    RestoreList(MaskedList(ps, Constant), OldSecrets(ListOf(ps)))
  }

  /** Unredacting a redacted document gives the original document in which only the provider list
      was encoded afresh: every listed secret and every other location is back as it was. */
  lemma RoundTrip(raw: Value, paths: seq<Path>, schema: Schema)
    requires raw.Obj? && Parse(raw, schema).Config? && Separate(paths)
    ensures Redacted(raw, paths, Constant, schema).Ok?
    ensures var back := WithProviders(raw, RoundTripped(Parse(raw, schema).providers));
            && back.Some?
            && Unredacted(Redacted(raw, paths, Constant, schema).value, raw, paths, schema) == Ok(back.value)
  {
    RedactHides(raw, paths, Constant, schema);
    BaseParses(raw, Constant, schema);
    var ps := Parse(raw, schema).providers;
    var base := RedactBase(raw, ps, Constant).value;
    var x := EncodeList(RoundTripped(ps));
    var site := Edit(raw, AUTH_PROVIDERS, x).value;
    RedactPathsCommutes(base, raw, paths, Constant, AUTH_PROVIDERS, x);
    assert WithProviders(RedactPaths(base, raw, paths, Constant), RoundTripped(ps)) ==
           Some(RedactPaths(site, raw, paths, Constant));
    forall i | 0 <= i < |paths| ensures ReadProperty(site, paths[i]) == ReadProperty(raw, paths[i]) {
      assert Apart(AUTH_PROVIDERS, paths[i]);
      ReadOtherEdit(raw, AUTH_PROVIDERS, x, paths[i]);
    }
    RoundTripPaths(site, raw, paths);
  }

  lemma RoundTrippedWellFormed(ps: Option<seq<Provider>>, schema: Schema)
    requires AllWellFormed(ListOf(ps), schema)
    ensures AllWellFormed(ListOf(RoundTripped(ps)), schema)
  {
  }

  /** The round trip restores every provider exactly when providers sharing a client id share their
      secret; in particular whenever client ids are distinct. */
  lemma ProvidersRoundTripIff(raw: Value, paths: seq<Path>, schema: Schema)
    requires raw.Obj? && Parse(raw, schema).Config? && Separate(paths)
    ensures var ps := Parse(raw, schema).providers;
            var out := Unredacted(Redacted(raw, paths, Constant, schema).value, raw, paths, schema);
            out.Ok? && (Parse(out.value, schema) == Config(ps) <==> ConsistentIDs(ListOf(ps)))
  {
    RoundTrip(raw, paths, schema);
    var ps := Parse(raw, schema).providers;
    ParsedIsWellFormed(raw, schema);
    RoundTrippedWellFormed(ps, schema);
    ParseEdited(raw, RoundTripped(ps), schema);
    ProvidersRestoredIff(ListOf(ps));
  }

  /** The document itself comes back unchanged exactly when, besides, its provider list already was
      in encoded form; one with no provider list at all gains a null one. */
  lemma DocumentRoundTripIff(raw: Value, paths: seq<Path>, schema: Schema)
    requires raw.Obj? && Parse(raw, schema).Config? && Separate(paths)
    ensures var ps := Parse(raw, schema).providers;
            Unredacted(Redacted(raw, paths, Constant, schema).value, raw, paths, schema) == Ok(raw) <==>
            ConsistentIDs(ListOf(ps)) && ReadProperty(raw, AUTH_PROVIDERS) == Some(EncodeList(ps))
  {
    RoundTrip(raw, paths, schema);
    ProvidersRoundTripIff(raw, paths, schema);
    var ps := Parse(raw, schema).providers;
    ProvidersRestoredIff(ListOf(ps));
    ReadOwnEdit(raw, AUTH_PROVIDERS, EncodeList(RoundTripped(ps)));
    if ConsistentIDs(ListOf(ps)) {
      assert RoundTripped(ps) == ps;
      if ReadProperty(raw, AUTH_PROVIDERS) == Some(EncodeList(ps)) {
        EditSame(raw, AUTH_PROVIDERS);
      }
    }
  }

  /** ---- Unredacting what an editor sent back ---- */

  predicate HasID(p: Provider, id: string) {
    p.Client? && p.clientID == id
  }

  // The secret of the last provider with the id, or "" when there is none.
  predicate IsLastSecret(ps: seq<Provider>, id: string, secret: string) {
    || (secret == "" && forall j :: 0 <= j < |ps| ==> !HasID(ps[j], id))
    || exists j :: 0 <= j < |ps| && HasID(ps[j], id) && ps[j].secret == secret &&
                   forall k :: j < k < |ps| ==> !HasID(ps[k], id)
  }

  // A provider as it comes out: its own secret unless that reads REDACTED, all else as it was.
  predicate SecretRestored(before: Provider, after: Provider, stored: seq<Provider>) {
    if before.Client? && before.secret == REDACTED then
      && after.Client? && after.kind == before.kind && after.clientID == before.clientID && after.rest == before.rest
      && IsLastSecret(stored, before.clientID, after.secret)
    else after == before
  }

  predicate SecretsRestored(before: Option<seq<Provider>>, after: Option<seq<Provider>>, stored: seq<Provider>) {
    && (before.None? <==> after.None?)
    && |ListOf(after)| == |ListOf(before)|
    && forall i :: 0 <= i < |ListOf(before)| ==> SecretRestored(ListOf(before)[i], ListOf(after)[i], stored)
  }

  lemma {:induction false} OldSecretIsLast(ps: seq<Provider>, id: string)
    ensures IsLastSecret(ps, id, if id in OldSecrets(ps) then OldSecrets(ps)[id] else "")
  {
    if ps != [] {
      var n := |ps| - 1;
      OldSecretIsLast(ps[..n], id);
      if HasID(ps[n], id) {
        assert OldSecrets(ps)[id] == ps[n].secret;
      } else {
        LastSecretLonger(ps, id, if id in OldSecrets(ps) then OldSecrets(ps)[id] else "");
      }
    }
  }

  lemma LastSecretLonger(ps: seq<Provider>, id: string, secret: string)
    requires ps != [] && !HasID(ps[|ps| - 1], id) && IsLastSecret(ps[..|ps| - 1], id, secret)
    ensures IsLastSecret(ps, id, secret)
  {
    var init := ps[..|ps| - 1];
    if j :| 0 <= j < |init| && HasID(init[j], id) && init[j].secret == secret &&
            forall k :: j < k < |init| ==> !HasID(init[k], id)
    {
      assert ps[j] == init[j];
      forall k | j < k < |ps| ensures !HasID(ps[k], id) {
        assert k < |init| ==> ps[k] == init[k];
      }
    } else {
      forall j | 0 <= j < |ps| ensures !HasID(ps[j], id) {
        assert j < |init| ==> ps[j] == init[j];
      }
    }
  }

  lemma RestoreListRestores(incoming: Option<seq<Provider>>, stored: seq<Provider>)
    ensures SecretsRestored(incoming, RestoreList(incoming, OldSecrets(stored)), stored)
  {
    forall i | 0 <= i < |ListOf(incoming)|
      ensures SecretRestored(ListOf(incoming)[i], ListOf(RestoreList(incoming, OldSecrets(stored)))[i], stored)
    {
      if ListOf(incoming)[i].Client? {
        OldSecretIsLast(stored, ListOf(incoming)[i].clientID);
      }
    }
  }

  /** Which error either function gives, for every input: an old document that does not parse, then a
      new one that does not, then a new one that is no object and so takes no provider list. */
  lemma UnredactFails(input: Value, raw: Value, paths: seq<Path>, mask: Mask, schema: Schema)
    ensures Redacted(raw, paths, mask, schema).Err? <==> Parse(raw, schema).Malformed?
    ensures Redacted(raw, paths, mask, schema).Err? ==> Redacted(raw, paths, mask, schema).error == ParseOld
    ensures var r := Unredacted(input, raw, paths, schema);
            && (r == Err(ParseOld) <==> Parse(raw, schema).Malformed?)
            && (r == Err(ParseNew) <==> Parse(raw, schema).Config? && Parse(input, schema).Malformed?)
            && (r == Err(EditFailed) <==> Parse(raw, schema).Config? && input == Null)
  {
    if raw.Obj? && Parse(raw, schema).Config? {
      BaseParses(raw, mask, schema);
    }
    if input.Obj? && Parse(input, schema).Config? && Parse(raw, schema).Config? {
      var list := RestoreList(Parse(input, schema).providers, OldSecrets(ListOf(Parse(raw, schema).providers)));
      ParsedIsWellFormed(input, schema);
      ParseEdited(input, list, schema);
    }
  }

  /** For any edited document: each listed location is decided on its own, provider secrets other
      than REDACTED are kept, and no other location changes. */
  lemma EditorKeepsRest(input: Value, raw: Value, paths: seq<Path>, schema: Schema)
    requires input.Obj? && Parse(input, schema).Config? && Parse(raw, schema).Config? && Separate(paths)
    ensures var out := Unredacted(input, raw, paths, schema);
            && out.Ok?
            && Parse(out.value, schema) ==
               Config(RestoreList(Parse(input, schema).providers, OldSecrets(ListOf(Parse(raw, schema).providers))))
            && SecretsRestored(Parse(input, schema).providers, Parse(out.value, schema).providers,
                               ListOf(Parse(raw, schema).providers))
            && (forall i :: 0 <= i < |paths| ==>
                  ReadProperty(out.value, paths[i]) ==
                  Restored(ReadProperty(input, paths[i]), ReadProperty(raw, paths[i])))
            && (forall q :: Apart(AUTH_PROVIDERS, q) && ApartFromAll(q, paths) ==>
                  ReadProperty(out.value, q) == ReadProperty(input, q))
  {
    var known := OldSecrets(ListOf(Parse(raw, schema).providers));
    var list := RestoreList(Parse(input, schema).providers, known);
    RestoreListRestores(Parse(input, schema).providers, ListOf(Parse(raw, schema).providers));
    ParsedIsWellFormed(input, schema);
    ParseEdited(input, list, schema);
    var base := WithProviders(input, list).value;
    var out := UnredactPaths(base, raw, paths);
    UnredactPathsKeepsObject(base, raw, paths);
    UnredactPathsElsewhere(base, raw, paths, AUTH_PROVIDERS);
    ParseDependsOnProviders(base, out, schema);
    forall i | 0 <= i < |paths|
      ensures ReadProperty(out, paths[i]) == Restored(ReadProperty(input, paths[i]), ReadProperty(raw, paths[i]))
    {
      assert Apart(AUTH_PROVIDERS, paths[i]);
      UnredactPathsAt(base, raw, paths, i);
      ReadOtherEdit(input, AUTH_PROVIDERS, EncodeList(list), paths[i]);
    }
    forall q | Apart(AUTH_PROVIDERS, q) && ApartFromAll(q, paths)
      ensures ReadProperty(out, q) == ReadProperty(input, q)
    {
      UnredactPathsElsewhere(base, raw, paths, q);
      ReadOtherEdit(input, AUTH_PROVIDERS, EncodeList(list), q);
    }
  }

  predicate HoldsString(site: Value, path: Path) {
    ReadProperty(site, path).Some? && ReadProperty(site, path).value.Str?
  }

  /** A listed secret that the editor replaced is kept exactly when the replacement is a string or
      the stored document holds no string there. */
  lemma ReplacementKeptIff(input: Value, raw: Value, paths: seq<Path>, schema: Schema, i: nat)
    requires input.Obj? && Parse(input, schema).Config? && Parse(raw, schema).Config? && Separate(paths)
    requires i < |paths| && ReadProperty(input, paths[i]).Some? && ReadProperty(input, paths[i]).value != Str(REDACTED)
    ensures var out := Unredacted(input, raw, paths, schema);
            out.Ok? && (ReadProperty(out.value, paths[i]) == ReadProperty(input, paths[i]) <==>
                        HoldsString(input, paths[i]) || !HoldsString(raw, paths[i]))
  {
    EditorKeepsRest(input, raw, paths, schema);
  }

  /** So clearing a secret with null does not clear it. */
  lemma NullDoesNotClear(secret: string, schema: Schema)
    ensures var path := ["githubClientSecret"];
            var raw := Obj(map["githubClientSecret" := Str(secret)]);
            var input := Obj(map["githubClientSecret" := Null]);
            var out := Unredacted(input, raw, [path], schema);
            out.Ok? && ReadProperty(input, path) == Some(Null) && ReadProperty(out.value, path) == Some(Str(secret))
  {
    var path := ["githubClientSecret"];
    var raw := Obj(map["githubClientSecret" := Str(secret)]);
    var input := Obj(map["githubClientSecret" := Null]);
    assert ReadProperty(raw, path) == Some(Str(secret)) && ReadProperty(input, path) == Some(Null) by {
      assert path[1..] == [];
    }
    assert Diverge(AUTH_PROVIDERS, path, 0);
    assert ReadProperty(raw, AUTH_PROVIDERS) == None && ReadProperty(input, AUTH_PROVIDERS) == None;
    EditorKeepsRest(input, raw, [path], schema);
    assert [path][0] == path;
  }

  /** Two providers with one client id: the first does not get its own secret back. */
  lemma SharedClientIDLosesSecret(schema: Schema)
    ensures var ps := [Client(GitHub, "id", "one", map[]), Client(GitHub, "id", "two", map[])];
            var raw := Obj(map["auth.providers" := EncodeList(Some(ps))]);
            var shown := Redacted(raw, SITE_CONFIG_SECRETS, Constant, schema);
            && Parse(raw, schema) == Config(Some(ps)) && shown.Ok?
            && var out := Unredacted(shown.value, raw, SITE_CONFIG_SECRETS, schema);
            out.Ok? && Parse(out.value, schema) != Config(Some(ps))
  {
    var ps := [Client(GitHub, "id", "one", map[]), Client(GitHub, "id", "two", map[])];
    var raw := Obj(map["auth.providers" := EncodeList(Some(ps))]);
    assert raw == Edit(Obj(map[]), AUTH_PROVIDERS, EncodeList(Some(ps))).value;
    ParseEdited(Obj(map[]), Some(ps), schema);
    SiteConfigSecretsAreSeparate();
    RoundTrip(raw, SITE_CONFIG_SECRETS, schema);
    ProvidersRoundTripIff(raw, SITE_CONFIG_SECRETS, schema);
    assert ps[0].clientID == ps[1].clientID && ps[0].secret != ps[1].secret;
  }

  /** A document without a provider list comes back with a null one. */
  lemma MissingListBecomesNull(schema: Schema)
    ensures var raw := Obj(map[]);
            var shown := Redacted(raw, SITE_CONFIG_SECRETS, Constant, schema);
            && shown.Ok?
            && Unredacted(shown.value, raw, SITE_CONFIG_SECRETS, schema) == Ok(Obj(map["auth.providers" := Null]))
  {
    var raw := Obj(map[]);
    assert ReadProperty(raw, AUTH_PROVIDERS) == None && Parse(raw, schema) == Config(None);
    SiteConfigSecretsAreSeparate();
    RoundTrip(raw, SITE_CONFIG_SECRETS, schema);
    assert WithProviders(raw, None) == Some(Obj(map["auth.providers" := Null]));
  }
}
