/**
  Redacting the secrets of a site configuration before it is shown, and putting them back
  into an edited copy (internal/conf/validate.go).  Documents are JSON trees; a text that is
  not JSON is None.
 */
module Redaction {
  import opened Options
  import opened Json
  import opened Providers

  const REDACTED := "REDACTED"

  // The listed secrets, by property path.
  const SITE_CONFIG_SECRETS: seq<Path> := [
    ["executors.accessToken"],
    ["email.smtp", "username"],
    ["email.smtp", "password"],
    ["organizationInvitations", "signingKey"],
    ["githubClientSecret"],
    ["dotcom", "githubApp.cloud", "clientSecret"],
    ["dotcom", "githubApp.cloud", "privateKey"],
    ["gitHubApp", "privateKey"],
    ["gitHubApp", "clientSecret"],
    ["auth.unlockAccountLinkSigningKey"],
    ["dotcom", "srcCliVersionCache", "github", "token"],
    ["dotcom", "srcCliVersionCache", "github", "webhookSecret"],
    ["embeddings", "accessToken"],
    ["completions", "accessToken"],
    ["app", "dotcomAuthToken"]
  ]

  // How a secret is shown: a constant, or a constant followed by part of its hash.
  type Mask = string -> string

  function Constant(secret: string): string {
    REDACTED
  }

  datatype Error = ParseOld | ParseNew | EditFailed

  /** ---- One step of each fold ---- */

  function MaskProvider(p: Provider, mask: Mask): Provider {
    if p.Client? then p.(secret := mask(p.secret)) else p
  }

  function MaskProviders(ps: seq<Provider>, mask: Mask): (r: seq<Provider>)
    ensures |r| == |ps| && forall i :: 0 <= i < |ps| ==> r[i] == MaskProvider(ps[i], mask)
  {
    if ps == [] then [] else [MaskProvider(ps[0], mask)] + MaskProviders(ps[1..], mask)
  }

  // Secrets by client id; of several providers with one id the last counts.
  function OldSecrets(ps: seq<Provider>): map<string, string> {
    if ps == [] then map[]
    else
      var p := ps[|ps| - 1];
      var earlier := OldSecrets(ps[..|ps| - 1]);
      if p.Client? then earlier[p.clientID := p.secret] else earlier
  }

  // A redacted secret gets the old one back, "" when the client id is unknown.
  function RestoreProvider(p: Provider, known: map<string, string>): Provider {
    if p.Client? && p.secret == REDACTED
    then p.(secret := if p.clientID in known then known[p.clientID] else "")
    else p
  }

  function RestoreProviders(ps: seq<Provider>, known: map<string, string>): (r: seq<Provider>)
    ensures |r| == |ps| && forall i :: 0 <= i < |ps| ==> r[i] == RestoreProvider(ps[i], known)
  {
    if ps == [] then [] else [RestoreProvider(ps[0], known)] + RestoreProviders(ps[1..], known)
  }

  // Replace an existing property; the caller has just read it.
  function Put(site: Value, path: Path, x: Value): Value {
    match Edit(site, path, x) case Some(v) => v case None => site
  }

  function RedactPath(site: Value, raw: Value, path: Path, mask: Mask): Value {
    var shown := ReadProperty(site, path);
    if shown.None? || shown == Some(Str("")) then site
    else match ReadProperty(raw, path)
      case Some(Str(secret)) => Put(site, path, Str(mask(secret)))
      case _ => site
  }

  function UnredactPath(site: Value, raw: Value, path: Path): Value {
    var shown := ReadProperty(site, path);
    if shown.None? || (shown.value.Str? && shown.value.s != REDACTED) then site
    else match ReadProperty(raw, path)
      case Some(Str(secret)) => Put(site, path, Str(secret))
      case _ => site
  }

  function RedactPaths(site: Value, raw: Value, paths: seq<Path>, mask: Mask): Value
    decreases |paths|
  {
    if paths == [] then site
    else RedactPaths(RedactPath(site, raw, paths[0], mask), raw, paths[1..], mask)
  }

  function UnredactPaths(site: Value, raw: Value, paths: seq<Path>): Value
    decreases |paths|
  {
    if paths == [] then site
    else UnredactPaths(UnredactPath(site, raw, paths[0]), raw, paths[1..])
  }

  function WithProviders(site: Value, ps: Option<seq<Provider>>): Option<Value> {
    Edit(site, AUTH_PROVIDERS, EncodeList(ps))
  }

  // The masked provider list, written only when there is a provider.
  function RedactBase(raw: Value, ps: Option<seq<Provider>>, mask: Mask): Option<Value> {
    if ListOf(ps) == [] then Some(raw) else WithProviders(raw, Some(MaskProviders(ps.value, mask)))
  }

  function RestoreList(ps: Option<seq<Provider>>, known: map<string, string>): Option<seq<Provider>> {
    match ps case None => None case Some(list) => Some(RestoreProviders(list, known))
  }

  /** ---- The two functions of the source ---- */

  function Redacted(raw: Value, paths: seq<Path>, mask: Mask, schema: Schema): Result<Value, Error> {
    match Parse(raw, schema)
    case Malformed => Err(ParseOld)
    case Config(ps) =>
      match RedactBase(raw, ps, mask)
      case None => Err(EditFailed)
      case Some(base) => Ok(RedactPaths(base, raw, paths, mask))
  }

  function Unredacted(input: Value, raw: Value, paths: seq<Path>, schema: Schema): Result<Value, Error> {
    match (Parse(raw, schema), Parse(input, schema))
    case (Malformed, _) => Err(ParseOld)
    case (_, Malformed) => Err(ParseNew)
    case (Config(known), Config(incoming)) =>
      match WithProviders(input, RestoreList(incoming, OldSecrets(ListOf(known))))
      case None => Err(EditFailed)
      case Some(base) => Ok(UnredactPaths(base, raw, paths))
  }

  method MaskList(list: seq<Provider>, mask: Mask) returns (masked: seq<Provider>)
    ensures masked == MaskProviders(list, mask)
  {
    masked := [];
    for i := 0 to |list|
      invariant |masked| == i && forall k :: 0 <= k < i ==> masked[k] == MaskProvider(list[k], mask)
    {
      var p := list[i];
      if p.Client? {
        p := p.(secret := mask(p.secret));
      }
      masked := masked + [p];
    }
  }

  // The loop over the listed paths, on the text that already has its providers masked.
  method MaskPaths(base: Value, raw: Value, paths: seq<Path>, mask: Mask) returns (site: Value)
    ensures site == RedactPaths(base, raw, paths, mask)
  {
    site := base;
    for i := 0 to |paths|
      invariant RedactPaths(base, raw, paths, mask) == RedactPaths(site, raw, paths[i..], mask)
    {
      assert paths[i..][0] == paths[i] && paths[i..][1..] == paths[i + 1..];
      var shown := ReadProperty(site, paths[i]);
      if shown.None? || shown == Some(Str("")) {
        continue;
      }
      var secret := ReadProperty(raw, paths[i]);
      if secret.None? || !secret.value.Str? {
        continue;
      }
      ExistingIsEditable(site, paths[i], Str(mask(secret.value.s)));
      site := Edit(site, paths[i], Str(mask(secret.value.s))).value;
    }
  }

  method RedactConfSecrets(raw: Option<Value>, paths: seq<Path>, mask: Mask, schema: Schema)
    returns (r: Result<Value, Error>)
    ensures r == if raw.None? then Err(ParseOld) else Redacted(raw.value, paths, mask, schema)
  {
    if raw.None? {
      return Err(ParseOld);
    }
    var cfg := Parse(raw.value, schema);
    if cfg.Malformed? {
      return Err(ParseOld);
    }
    var list := ListOf(cfg.providers);
    var masked := MaskList(list, mask);
    var site := raw.value;
    if |list| > 0 {
      var edited := Edit(site, AUTH_PROVIDERS, Arr(EncodeAll(masked)));
      if edited.None? {
        return Err(EditFailed);
      }
      site := edited.value;
    }
    site := MaskPaths(site, raw.value, paths, mask);
    return Ok(site);
  }

  // The old secret of each client id; of equal ids the last one counts.
  method CollectSecrets(known: seq<Provider>) returns (oldSecrets: map<string, string>)
    ensures oldSecrets == OldSecrets(known)
  {
    oldSecrets := map[];
    for i := 0 to |known|
      invariant oldSecrets == OldSecrets(known[..i])
    {
      assert known[..i + 1][..i] == known[..i];
      if known[i].Client? {
        oldSecrets := oldSecrets[known[i].clientID := known[i].secret];
      }
    }
    assert known[..|known|] == known;
  }

  method RestoreSecrets(list: seq<Provider>, oldSecrets: map<string, string>) returns (restored: seq<Provider>)
    ensures restored == RestoreProviders(list, oldSecrets)
  {
    restored := [];
    for i := 0 to |list|
      invariant |restored| == i && forall k :: 0 <= k < i ==> restored[k] == RestoreProvider(list[k], oldSecrets)
    {
      var p := list[i];
      if p.Client? && p.secret == REDACTED {
        p := p.(secret := if p.clientID in oldSecrets then oldSecrets[p.clientID] else "");
      }
      restored := restored + [p];
    }
  }

  method RestorePaths(base: Value, raw: Value, paths: seq<Path>) returns (site: Value)
    ensures site == UnredactPaths(base, raw, paths)
  {
    site := base;
    for i := 0 to |paths|
      invariant UnredactPaths(base, raw, paths) == UnredactPaths(site, raw, paths[i..])
    {
      assert paths[i..][0] == paths[i] && paths[i..][1..] == paths[i + 1..];
      var shown := ReadProperty(site, paths[i]);
      if shown.None? || (shown.value.Str? && shown.value.s != REDACTED) {
        continue;
      }
      var secret := ReadProperty(raw, paths[i]);
      if secret.None? || !secret.value.Str? {
        continue;
      }
      ExistingIsEditable(site, paths[i], Str(secret.value.s));
      site := Edit(site, paths[i], Str(secret.value.s)).value;
    }
  }

  method UnredactSecrets(input: Option<Value>, raw: Option<Value>, paths: seq<Path>, schema: Schema)
    returns (r: Result<Value, Error>)
    ensures r == if raw.None? then Err(ParseOld)
                 else if input.None? then (if Parse(raw.value, schema).Malformed? then Err(ParseOld) else Err(ParseNew))
                 else Unredacted(input.value, raw.value, paths, schema)
  {
    if raw.None? || Parse(raw.value, schema).Malformed? {
      return Err(ParseOld);
    }
    var oldSecrets := CollectSecrets(ListOf(Parse(raw.value, schema).providers));
    if input.None? || Parse(input.value, schema).Malformed? {
      return Err(ParseNew);
    }
    var incoming := Parse(input.value, schema).providers;
    var restored := RestoreSecrets(ListOf(incoming), oldSecrets);
    var edited := Edit(input.value, AUTH_PROVIDERS, if incoming.None? then Null else Arr(EncodeAll(restored)));
    if edited.None? {
      return Err(EditFailed);
    }
    var site := RestorePaths(edited.value, raw.value, paths);
    return Ok(site);
  }
}
