/**
 * The per-service blocks of a project's `deck.yaml` and their nil-safe helpers.
 * A nil block is `None`; a nil extension list or configuration map is the empty
 * one, since every reader treats nil and empty alike.
 */
module ConfigServices {
  import opened Wrappers

  /**
   * A value of a free-form `configuration` map. Decoded YAML values are opaque
   * here; `Nil` is Go's nil interface (what a YAML `null` decodes to, and what a
   * lookup of a missing key returns).
   */
  datatype ConfigValue = Nil | Value(token: string)

  /** The shape shared by the Nginx, MariaDB, OpenSearch, Redis and RabbitMQ blocks (and `ServiceConfig`). */
  datatype ServiceConfig = ServiceConfig(version: string, configuration: map<string, ConfigValue>)

  datatype PHPConfig = PHPConfig(version: string, extensions: seq<string>)

  datatype NodeConfig = NodeConfig(version: string)

  datatype SwooleConfig = SwooleConfig(enabled: bool, port: int)

  /** `(*PHPConfig).GetVersion`: the block's version, `""` for a nil block. */
  function PHPConfigGetVersion(p: Option<PHPConfig>): (v: string)
    ensures p.None? ==> v == ""
    ensures p.Some? ==> v == p.value.version
  {
    if p.Some? && p.value.version != "" then p.value.version else ""
  }

  /** `GetVersion` of the blocks with a configuration map: the block's version, `""` for a nil block. */
  function ServiceConfigGetVersion(s: Option<ServiceConfig>): (v: string)
    ensures s.None? ==> v == ""
    ensures s.Some? ==> v == s.value.version
  {
    if s.Some? && s.value.version != "" then s.value.version else ""
  }

  /** `(*NodeConfig).GetVersion`: the block's version, `""` for a nil block. */
  function NodeConfigGetVersion(n: Option<NodeConfig>): (v: string)
    ensures n.None? ==> v == ""
    ensures n.Some? ==> v == n.value.version
  {
    if n.Some? && n.value.version != "" then n.value.version else ""
  }

  /** The range loop of `HasExtension`: true at the first element equal to `ext`. */
  function FindExtension(extensions: seq<string>, ext: string): (found: bool)
    ensures found <==> ext in extensions
  {
    if |extensions| == 0 then false
    else if extensions[0] == ext then true
    else FindExtension(extensions[1..], ext)
  }

  /** `(*PHPConfig).HasExtension`: false for a nil block, else whether `ext` is listed. */
  function HasExtension(p: Option<PHPConfig>, ext: string): (has: bool)
    ensures has <==> p.Some? && ext in p.value.extensions
  {
    if p.None? then false else FindExtension(p.value.extensions, ext)
  }

  /**
   * `GetConfigValue`: the value stored under `key`, `Nil` for a nil block or a
   * missing key.
   */
  function GetConfigValue(s: Option<ServiceConfig>, key: string): (v: ConfigValue)
    ensures v != Nil ==> s.Some? && key in s.value.configuration && v == s.value.configuration[key]
    ensures s.Some? && key in s.value.configuration ==> v == s.value.configuration[key]
  {
    if s.None? then Nil
    else if key in s.value.configuration then s.value.configuration[key]
    else Nil
  }
}
