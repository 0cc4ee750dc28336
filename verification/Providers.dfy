/**
  Auth providers as the redaction code sees them: decoded from and encoded to the JSON
  array at "auth.providers" (schema/schema.go, the tagged union AuthProviders).  Which
  other properties each kind has is a parameter; unknown properties are dropped by decoding.
 */
module Providers {
  import opened Options
  import opened Json

  datatype Kind =
    | AzureDevOps | BitbucketCloud | Builtin | Gerrit | GitHub | GitLab | HttpHeader | OpenIDConnect | Saml

  datatype Provider =
    | Client(kind: Kind, clientID: string, secret: string, rest: map<string, Value>)
    | Other(kind: Kind, rest: map<string, Value>)

  type Schema = Kind -> set<string>

  const RESERVED := {"type", "clientID", "clientKey", "clientSecret"}

  // The kinds whose client secret the redaction code handles.
  predicate HasSecret(kind: Kind) {
    kind in {AzureDevOps, BitbucketCloud, GitHub, GitLab, OpenIDConnect}
  }

  function TypeName(kind: Kind): string {
    match kind
    case AzureDevOps => "azureDevOps"
    case BitbucketCloud => "bitbucketcloud"
    case Builtin => "builtin"
    case Gerrit => "gerrit"
    case GitHub => "github"
    case GitLab => "gitlab"
    case HttpHeader => "http-header"
    case OpenIDConnect => "openidconnect"
    case Saml => "saml"
  }

  function KindOf(name: string): Option<Kind> {
    if name == "azureDevOps" then Some(AzureDevOps)
    else if name == "bitbucketcloud" then Some(BitbucketCloud)
    else if name == "builtin" then Some(Builtin)
    else if name == "gerrit" then Some(Gerrit)
    else if name == "github" then Some(GitHub)
    else if name == "gitlab" then Some(GitLab)
    else if name == "http-header" then Some(HttpHeader)
    else if name == "openidconnect" then Some(OpenIDConnect)
    else if name == "saml" then Some(Saml)
    else None
  }

  function IdField(kind: Kind): string {
    if kind == BitbucketCloud then "clientKey" else "clientID"
  }

  // A string property: "" when absent or null, None when it has another type.
  function StringField(fields: map<string, Value>, name: string): Option<string> {
    if name !in fields || fields[name] == Null then Some("")
    else if fields[name].Str? then Some(fields[name].s)
    else None
  }

  function Decode(v: Value, schema: Schema): Option<Provider> {
    if !v.Obj? then None
    else match StringField(v.fields, "type")
      case None => None
      case Some(name) =>
        match KindOf(name)
        case None => None
        case Some(kind) =>
          var rest := map k | k in v.fields && k in schema(kind) && k !in RESERVED :: v.fields[k];
          if !HasSecret(kind) then Some(Other(kind, rest))
          else match (StringField(v.fields, IdField(kind)), StringField(v.fields, "clientSecret"))
            case (Some(id), Some(secret)) => Some(Client(kind, id, secret, rest))
            case _ => None
  }

  function Encode(p: Provider): Value {
    match p
    case Other(kind, rest) => Obj(rest["type" := Str(TypeName(kind))])
    case Client(kind, id, secret, rest) =>
      Obj(rest["type" := Str(TypeName(kind))][IdField(kind) := Str(id)]["clientSecret" := Str(secret)])
  }

  // Exactly the providers decoding can give.
  ghost predicate WellFormed(p: Provider, schema: Schema) {
    p.rest.Keys <= schema(p.kind) - RESERVED && (p.Client? <==> HasSecret(p.kind))
  }

  lemma KindRoundTrip(kind: Kind)
    ensures KindOf(TypeName(kind)) == Some(kind)
  {
    match kind
    case AzureDevOps => case BitbucketCloud => case Builtin => case Gerrit => case GitHub =>
    case GitLab => case HttpHeader => case OpenIDConnect => case Saml =>
  }

  lemma DecodedIsWellFormed(v: Value, schema: Schema)
    requires Decode(v, schema).Some?
    ensures WellFormed(Decode(v, schema).value, schema)
  {
  }

  /** Encoding then decoding gives the provider back. */
  lemma DecodeEncode(p: Provider, schema: Schema)
    requires WellFormed(p, schema)
    ensures Decode(Encode(p), schema) == Some(p)
  {
    KindRoundTrip(p.kind);
    var fields := Encode(p).fields;
    assert StringField(fields, "type") == Some(TypeName(p.kind));
    var rest := map k | k in fields && k in schema(p.kind) && k !in RESERVED :: fields[k];
    assert IdField(p.kind) in RESERVED;
    assert rest == p.rest;
  }

  function DecodeAll(items: seq<Value>, schema: Schema): Option<seq<Provider>> {
    if items == [] then Some([])
    else match (Decode(items[0], schema), DecodeAll(items[1..], schema))
      case (Some(p), Some(ps)) => Some([p] + ps)
      case _ => None
  }

  function EncodeAll(ps: seq<Provider>): seq<Value> {
    if ps == [] then [] else [Encode(ps[0])] + EncodeAll(ps[1..])
  }

  ghost predicate AllWellFormed(ps: seq<Provider>, schema: Schema) {
    forall i :: 0 <= i < |ps| ==> WellFormed(ps[i], schema)
  }

  lemma {:induction false} DecodeAllWellFormed(items: seq<Value>, schema: Schema)
    requires DecodeAll(items, schema).Some?
    ensures AllWellFormed(DecodeAll(items, schema).value, schema)
  {
    if items != [] {
      DecodedIsWellFormed(items[0], schema);
      DecodeAllWellFormed(items[1..], schema);
    }
  }

  lemma DecodeAllCons(v: Value, vs: seq<Value>, p: Provider, ps: seq<Provider>, schema: Schema)
    requires Decode(v, schema) == Some(p) && DecodeAll(vs, schema) == Some(ps)
    ensures DecodeAll([v] + vs, schema) == Some([p] + ps)
  {
    assert ([v] + vs)[1..] == vs;
  }

  lemma {:induction false} DecodeEncodeAll(ps: seq<Provider>, schema: Schema)
    requires AllWellFormed(ps, schema)
    ensures DecodeAll(EncodeAll(ps), schema) == Some(ps)
  {
    if ps != [] {
      var p, rest := ps[0], ps[1..];
      assert ps == [p] + rest;
      DecodeEncodeAll(rest, schema);
      assert Decode(Encode(p), schema) == Some(p) by { DecodeEncode(p, schema); }
      DecodeAllCons(Encode(p), EncodeAll(rest), p, rest, schema);
    }
  }

  const AUTH_PROVIDERS: Path := ["auth.providers"]

  // A nil provider list is None; it encodes as null.
  datatype Parsed = Malformed | Config(providers: Option<seq<Provider>>)

  // What ParseConfig says about the provider list of a document.
  function Parse(root: Value, schema: Schema): Parsed {
    if root == Null then Config(None)
    else if !root.Obj? then Malformed
    else match ReadProperty(root, AUTH_PROVIDERS)
      case None => Config(None)
      case Some(Null) => Config(None)
      case Some(Arr(items)) =>
        (match DecodeAll(items, schema)
         case Some(ps) => Config(Some(ps))
         case None => Malformed)
      case Some(_) => Malformed
  }

  function EncodeList(ps: Option<seq<Provider>>): Value {
    match ps case None => Null case Some(ps) => Arr(EncodeAll(ps))
  }

  function ListOf(ps: Option<seq<Provider>>): seq<Provider> {
    match ps case None => [] case Some(ps) => ps
  }

  lemma ParsedIsWellFormed(root: Value, schema: Schema)
    requires Parse(root, schema).Config?
    ensures AllWellFormed(ListOf(Parse(root, schema).providers), schema)
  {
    if root.Obj? {
      match ReadProperty(root, AUTH_PROVIDERS)
      case Some(Arr(items)) => DecodeAllWellFormed(items, schema);
      case _ =>
    }
  }

  /** A document whose provider list was replaced by an encoded list parses to that list. */
  lemma ParseEdited(root: Value, ps: Option<seq<Provider>>, schema: Schema)
    requires root.Obj? && AllWellFormed(ListOf(ps), schema)
    ensures var edited := Edit(root, AUTH_PROVIDERS, EncodeList(ps));
            edited.Some? && edited.value.Obj? && Parse(edited.value, schema) == Config(ps)
  {
    var edited := Edit(root, AUTH_PROVIDERS, EncodeList(ps));
    assert edited.Some?;
    ReadOwnEdit(root, AUTH_PROVIDERS, EncodeList(ps));
    if ps.Some? {
      DecodeEncodeAll(ps.value, schema);
    }
  }
}
