/**
  The configuration values that travel from the source to the readers
  (internal/conf/conftypes, internal/conf/conf.go, internal/conf/parse.go).
  JSON decoding is a parameter: a partial function from text to decoded options.
 */
module SiteConfig {
  import opened Options

  // Option name to the JSON text of its value.
  type Fields = map<string, string>

  datatype SiteConfiguration = SiteConfiguration(options: Fields, experimental: Option<Fields>)

  // The unparsed configuration; `id` is the database row it came from.
  datatype RawUnified = RawUnified(id: int, site: string, services: Fields) {
    // The row id takes no part in the comparison.
    predicate Equal(other: RawUnified) {
      site == other.site && services == other.services
    }
  }

  datatype Unified = Unified(site: SiteConfiguration, services: Fields)

  type Unmarshal = string -> Option<SiteConfiguration>

  const ZERO_SITE := SiteConfiguration(map[], None)

  // Decodes the text and makes the experimental features non-nil.
  function ParseConfigData(data: string, unmarshal: Unmarshal): (cfg: Option<SiteConfiguration>)
    ensures cfg.Some? ==> cfg.value.experimental.Some?
    ensures data == "" ==> cfg == Some(SiteConfiguration(map[], Some(map[])))
    ensures data != "" ==> (cfg.None? <==> unmarshal(data).None?)
    ensures data != "" && cfg.Some? ==>
      && cfg.value.options == unmarshal(data).value.options
      && cfg.value.experimental in {unmarshal(data).value.experimental, Some(map[])}
      && (unmarshal(data).value.experimental.Some? ==> cfg == unmarshal(data))
  {
    var decoded := if data != "" then unmarshal(data) else Some(ZERO_SITE);
    match decoded
    case None => None
    case Some(c) => Some(if c.experimental.None? then c.(experimental := Some(map[])) else c)
  }

  function ParseConfig(raw: RawUnified, unmarshal: Unmarshal): (cfg: Option<Unified>)
    ensures cfg.None? <==> ParseConfigData(raw.site, unmarshal).None?
    ensures cfg.Some? ==> cfg.value.services == raw.services
    ensures cfg.Some? ==> Some(cfg.value.site) == ParseConfigData(raw.site, unmarshal)
    ensures cfg.Some? ==> cfg.value.site.experimental.Some?
  {
    match ParseConfigData(raw.site, unmarshal)
    case None => None
    case Some(site) => Some(Unified(site, raw.services))
  }
}
