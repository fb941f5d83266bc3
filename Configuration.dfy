/**
 * The configuration of config.go and `validateConfig` (config.go:18-36): the
 * required fields are checked in order, the first missing one is reported,
 * and an empty metrics address is defaulted on the way.
 */
module Configuration {

  datatype Option<T> = None | Some(value: T)

  const DefaultMetricsListen: string := ":9234"

  const ErrBindNotSet: string := "'Bind' is not set"
  const ErrZoneNotSet: string := "'Zone' is not set"
  const ErrServicesUndefined: string := "'Services' must be defined"

  /**
   * The error `validateConfig` returns for a configuration with these
   * fields, `None` standing for `nil`.  The metrics address plays no part.
   */
  function ValidationError(bind: string, zone: string, services: seq<string>): (err: Option<string>)
    ensures err == None <==> bind != "" && zone != "" && |services| > 0
    ensures bind == "" ==> err == Some(ErrBindNotSet)
    ensures bind != "" && zone == "" ==> err == Some(ErrZoneNotSet)
    ensures bind != "" && zone != "" && |services| == 0 ==> err == Some(ErrServicesUndefined)
  {
    if bind == "" then Some(ErrBindNotSet)
    else if zone == "" then Some(ErrZoneNotSet)
    else if |services| == 0 then Some(ErrServicesUndefined)
    else None
  }

  /**
   * The metrics address after `validateConfig`: the default replaces an
   * empty one once `Bind` and `Zone` have passed their checks, whether or
   * not the `Services` check then fails; a set address is never replaced.
   */
  function ValidatedListen(bind: string, zone: string, metricsListen: string): (ml: string)
    ensures metricsListen != "" ==> ml == metricsListen
    ensures ml != metricsListen <==> bind != "" && zone != "" && metricsListen == ""
    ensures ml != metricsListen ==> ml == DefaultMetricsListen
  {
    if bind != "" && zone != "" && metricsListen == "" then DefaultMetricsListen else metricsListen
  }

  /** A successful validation leaves a usable metrics address. */
  lemma ValidConfigHasMetricsListen(bind: string, zone: string, services: seq<string>, metricsListen: string)
    requires ValidationError(bind, zone, services) == None
    ensures ValidatedListen(bind, zone, metricsListen) != ""
  {
  }

  /** Validating again leaves the metrics address as the first run left it. */
  lemma ValidationIdempotent(bind: string, zone: string, metricsListen: string)
    ensures ValidatedListen(bind, zone, ValidatedListen(bind, zone, metricsListen))
         == ValidatedListen(bind, zone, metricsListen)
  {
  }

  /** `Config` (config.go:11-16), as decoded from the configuration file. */
  class Config {
    var bind: string
    var metricsListen: string
    var zone: string
    var services: seq<string>

    constructor (bind: string, metricsListen: string, zone: string, services: seq<string>)
      ensures this.bind == bind && this.metricsListen == metricsListen
      ensures this.zone == zone && this.services == services
    {
      this.bind := bind;
      this.metricsListen := metricsListen;
      this.zone := zone;
      this.services := services;
    }
  }

  /**
   * `validateConfig(c)`: reports the first missing required field, and sets
   * an empty metrics address to the default once `Bind` and `Zone` are set.
   * Only the metrics address may change.
   */
  method ValidateConfig(c: Config) returns (err: Option<string>)
    modifies c`metricsListen
    ensures err == ValidationError(c.bind, c.zone, c.services)
    ensures c.metricsListen == ValidatedListen(c.bind, c.zone, old(c.metricsListen))
  {
    if c.bind == "" {
      return Some(ErrBindNotSet);
    }
    if c.zone == "" {
      return Some(ErrZoneNotSet);
    }
    if c.metricsListen == "" {
      c.metricsListen := DefaultMetricsListen;
    }
    if |c.services| == 0 {
      return Some(ErrServicesUndefined);
    }
    return None;
  }

  /** Running `validateConfig` twice gives the first run's result and configuration. */
  method ValidateConfigTwice(c: Config) returns (err1: Option<string>, err2: Option<string>)
    modifies c`metricsListen
    ensures err1 == err2
    ensures c.metricsListen == ValidatedListen(c.bind, c.zone, old(c.metricsListen))
  {
    err1 := ValidateConfig(c);
    err2 := ValidateConfig(c);
    ValidationIdempotent(c.bind, c.zone, old(c.metricsListen));
  }
}
