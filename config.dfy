/**
 * The config resolver: turns a parsed `deck.yaml` into a complete configuration.
 * `LoadConfig` validates the project name, then copies catalog versions into the
 * still-empty service versions (phase A, when a Magento version is given), then
 * fills what is still empty with fixed fallbacks (phase B).
 *
 * `DeckConfig` is the mutable record the two phases update in place; `Deck` is its
 * value, and `MagentoDefaults`, `Defaults` and `Resolve` say on values what the
 * phases and `LoadConfig` do.
 */
module Config {
  import opened Wrappers
  import opened ConfigServices
  import Magento

  /** The value of a `DeckConfig`: what `deck.yaml` parses to. */
  datatype Deck = Deck(
    project: string,
    magento: string,
    php: Option<PHPConfig>,
    nginx: Option<ServiceConfig>,
    mariadb: Option<ServiceConfig>,
    opensearch: Option<ServiceConfig>,
    redis: Option<ServiceConfig>,
    rabbitmq: Option<ServiceConfig>,
    node: Option<NodeConfig>,
    swoole: Option<SwooleConfig>)

  /** The six services whose versions the resolver fills. */
  datatype Service = PHP | Nginx | MariaDB | OpenSearch | Redis | RabbitMQ

  /** The version a config gives a service, `""` when its block is missing. */
  function VersionOf(d: Deck, s: Service): (v: string)
  {
    match s
    case PHP => PHPConfigGetVersion(d.php)
    case Nginx => ServiceConfigGetVersion(d.nginx)
    case MariaDB => ServiceConfigGetVersion(d.mariadb)
    case OpenSearch => ServiceConfigGetVersion(d.opensearch)
    case Redis => ServiceConfigGetVersion(d.redis)
    case RabbitMQ => ServiceConfigGetVersion(d.rabbitmq)
  }

  predicate HasBlock(d: Deck, s: Service)
  {
    match s
    case PHP => d.php.Some?
    case Nginx => d.nginx.Some?
    case MariaDB => d.mariadb.Some?
    case OpenSearch => d.opensearch.Some?
    case Redis => d.redis.Some?
    case RabbitMQ => d.rabbitmq.Some?
  }

  /** A service's free-form configuration map; the PHP block and missing blocks have none. */
  function ConfigurationOf(d: Deck, s: Service): (m: map<string, ConfigValue>)
  {
    match s
    case PHP => map[]
    case Nginx => if d.nginx.Some? then d.nginx.value.configuration else map[]
    case MariaDB => if d.mariadb.Some? then d.mariadb.value.configuration else map[]
    case OpenSearch => if d.opensearch.Some? then d.opensearch.value.configuration else map[]
    case Redis => if d.redis.Some? then d.redis.value.configuration else map[]
    case RabbitMQ => if d.rabbitmq.Some? then d.rabbitmq.value.configuration else map[]
  }

  /** The version the catalog requirements give a service. */
  function CatalogVersion(req: Magento.MagentoRequirements, s: Service): (v: string)
  {
    match s
    case PHP => req.php
    case Nginx => req.nginx
    case MariaDB => req.mariadb
    case OpenSearch => req.opensearch
    case Redis => req.redis
    case RabbitMQ => req.rabbitmq
  }

  /** The fixed version used when neither the user nor the catalog gives one. */
  function Fallback(s: Service): (v: string)
  {
    match s
    case PHP => "8.3"
    case Nginx => "1.28"
    case MariaDB => "11.4"
    case OpenSearch => "3"
    case Redis => "7.4"
    case RabbitMQ => "4.1"
  }

  /** The PHP extensions enabled when the config lists none, in this order. */
  const DefaultExtensions: seq<string> :=
    ["bcmath", "gd", "intl", "mbstring", "pdo_mysql", "soap", "sockets", "xsl", "zip", "opcache"]

  const DefaultSwoolePort: int := 9501

  const ProjectRequiredError: string := "project name is required in deck.yaml"

  const RequirementsErrorPrefix: string := "failed to get Magento requirements: "

  // ---------------------------------------------------------------- the phases on values

  /** The PHP block, created if missing, with an empty version replaced by `v`. */
  function FillPHP(p: Option<PHPConfig>, v: string): (r: PHPConfig)
  {
    var block := if p.Some? then p.value else PHPConfig("", []);
    if block.version == "" then block.(version := v) else block
  }

  /** A service block, created if missing, with an empty version replaced by `v`. */
  function FillService(b: Option<ServiceConfig>, v: string): (r: ServiceConfig)
  {
    var block := if b.Some? then b.value else ServiceConfig("", map[]);
    if block.version == "" then block.(version := v) else block
  }

  /** Phase A: catalog versions copied into the empty service versions. */
  function MagentoDefaults(d: Deck, req: Magento.MagentoRequirements): (r: Deck)
  {
    d.(php := Some(FillPHP(d.php, req.php)),
       nginx := Some(FillService(d.nginx, req.nginx)),
       mariadb := Some(FillService(d.mariadb, req.mariadb)),
       opensearch := Some(FillService(d.opensearch, req.opensearch)),
       redis := Some(FillService(d.redis, req.redis)),
       rabbitmq := Some(FillService(d.rabbitmq, req.rabbitmq)))
  }

  /** The Swoole block with a default port when enabled without one. */
  function DefaultSwoole(sw: Option<SwooleConfig>): (r: Option<SwooleConfig>)
  {
    if sw.Some? && sw.value.enabled && sw.value.port == 0
    then Some(sw.value.(port := DefaultSwoolePort))
    else sw
  }

  /** The PHP block of phase B: fallback version, and the default extensions when none are listed. */
  function DefaultPHP(p: Option<PHPConfig>): (r: PHPConfig)
  {
    var block := FillPHP(p, Fallback(PHP));
    if |block.extensions| == 0 then block.(extensions := DefaultExtensions) else block
  }

  /** Phase B: fallback versions, the default extension list and the default Swoole port. */
  function Defaults(d: Deck): (r: Deck)
  {
    Deck(d.project, d.magento,
         Some(DefaultPHP(d.php)),
         Some(FillService(d.nginx, Fallback(Nginx))),
         Some(FillService(d.mariadb, Fallback(MariaDB))),
         Some(FillService(d.opensearch, Fallback(OpenSearch))),
         Some(FillService(d.redis, Fallback(Redis))),
         Some(FillService(d.rabbitmq, Fallback(RabbitMQ))),
         d.node,
         DefaultSwoole(d.swoole))
  }

  /** What `LoadConfig` makes of a parsed config: a resolved config, or which check failed. */
  datatype Resolution = Resolved(config: Deck) | MissingProject | UnsupportedMagento

  /** The whole cascade on values: validation, phase A when a Magento version is set, phase B. */
  function Resolve(d: Deck, cat: Magento.Catalog): (r: Resolution)
    ensures r.MissingProject? <==> d.project == ""
    ensures r.UnsupportedMagento? <==>
      d.project != "" && d.magento != "" && Magento.GetVersion(cat, d.magento).None?
  {
    if d.project == "" then MissingProject
    else if d.magento == "" then Resolved(Defaults(d))
    else match Magento.Requirements(cat, d.magento)
      case None => UnsupportedMagento
      case Some(req) => Resolved(Defaults(MagentoDefaults(d, req)))
  }

  /** A fully resolved config: every block present with a version, extensions listed, an enabled Swoole has a port. */
  predicate Settled(d: Deck)
  {
    && (forall s :: HasBlock(d, s) && VersionOf(d, s) != "")
    && d.php.Some? && |d.php.value.extensions| > 0
    && (d.swoole.Some? && d.swoole.value.enabled ==> d.swoole.value.port != 0)
  }

  // ---------------------------------------------------------------- properties of the cascade

  /** Phase A on one service: a non-empty version is kept, an empty one takes the catalog's; the block exists afterwards. */
  lemma MagentoDefaultsVersion(d: Deck, req: Magento.MagentoRequirements, s: Service)
    ensures HasBlock(MagentoDefaults(d, req), s)
    ensures VersionOf(MagentoDefaults(d, req), s) ==
      if VersionOf(d, s) != "" then VersionOf(d, s) else CatalogVersion(req, s)
    ensures ConfigurationOf(MagentoDefaults(d, req), s) == ConfigurationOf(d, s)
  {
    match s
    case PHP =>
    case Nginx =>
    case MariaDB =>
    case OpenSearch =>
    case Redis =>
    case RabbitMQ =>
  }

  /** Phase B on one service: a non-empty version is kept, an empty one takes the fallback; the block exists afterwards. */
  lemma DefaultsVersion(d: Deck, s: Service)
    ensures HasBlock(Defaults(d), s)
    ensures VersionOf(Defaults(d), s) == if VersionOf(d, s) != "" then VersionOf(d, s) else Fallback(s)
    ensures ConfigurationOf(Defaults(d), s) == ConfigurationOf(d, s)
  {
    match s
    case PHP =>
    case Nginx =>
    case MariaDB =>
    case OpenSearch =>
    case Redis =>
    case RabbitMQ =>
  }

  /** A resolved config is phase B of the input, preceded by phase A when a Magento version is set. */
  lemma ResolvedPhases(d: Deck, cat: Magento.Catalog)
    requires Resolve(d, cat).Resolved?
    ensures d.magento == "" ==> Resolve(d, cat).config == Defaults(d)
    ensures d.magento != "" ==>
      && Magento.Requirements(cat, d.magento).Some?
      && Resolve(d, cat).config == Defaults(MagentoDefaults(d, Magento.Requirements(cat, d.magento).value))
  {
  }

  /**
   * The precedence law: a non-empty user version survives, an empty one takes
   * the catalog's version when that is non-empty, and the fallback otherwise.
   */
  lemma PrecedenceLaw(d: Deck, cat: Magento.Catalog, s: Service)
    requires Resolve(d, cat).Resolved?
    ensures var out := VersionOf(Resolve(d, cat).config, s);
      if VersionOf(d, s) != "" then out == VersionOf(d, s)
      else if d.magento != "" && CatalogVersion(Magento.Requirements(cat, d.magento).value, s) != ""
      then out == CatalogVersion(Magento.Requirements(cat, d.magento).value, s)
      else out == Fallback(s)
  {
    ResolvedPhases(d, cat);
    if d.magento == "" {
      DefaultsVersion(d, s);
    } else {
      var req := Magento.Requirements(cat, d.magento).value;
      MagentoDefaultsVersion(d, req, s);
      DefaultsVersion(MagentoDefaults(d, req), s);
    }
  }

  /** Phase B always produces a settled config. */
  lemma DefaultsSettled(d: Deck)
    ensures Settled(Defaults(d))
  {
    var out := Defaults(d);
    forall s
      ensures HasBlock(out, s) && VersionOf(out, s) != ""
    {
      match s
      case PHP =>
      case Nginx =>
      case MariaDB =>
      case OpenSearch =>
      case Redis =>
      case RabbitMQ =>
    }
  }

  /** Neither phase changes a settled config. */
  lemma SettledIsFixed(d: Deck, req: Magento.MagentoRequirements)
    requires Settled(d)
    ensures Defaults(d) == d
    ensures MagentoDefaults(d, req) == d
  {
    assert HasBlock(d, PHP) && VersionOf(d, PHP) != "";
    assert HasBlock(d, Nginx) && VersionOf(d, Nginx) != "";
    assert HasBlock(d, MariaDB) && VersionOf(d, MariaDB) != "";
    assert HasBlock(d, OpenSearch) && VersionOf(d, OpenSearch) != "";
    assert HasBlock(d, Redis) && VersionOf(d, Redis) != "";
    assert HasBlock(d, RabbitMQ) && VersionOf(d, RabbitMQ) != "";
  }

  /** Applying phase B to its own output changes nothing. */
  lemma DefaultsIdempotent(d: Deck)
    ensures Defaults(Defaults(d)) == Defaults(d)
  {
    DefaultsSettled(d);
    SettledIsFixed(Defaults(d), Magento.MagentoRequirements("", "", "", "", "", "", ""));
  }

  /** A successful resolution is complete and is a fixed point: resolving it again yields it again. */
  lemma ResolveIdempotent(d: Deck, cat: Magento.Catalog)
    requires Resolve(d, cat).Resolved?
    ensures Settled(Resolve(d, cat).config)
    ensures Resolve(Resolve(d, cat).config, cat) == Resolve(d, cat)
  {
    var out := Resolve(d, cat).config;
    if d.magento == "" {
      DefaultsSettled(d);
      SettledIsFixed(out, Magento.MagentoRequirements("", "", "", "", "", "", ""));
    } else {
      var req := Magento.Requirements(cat, d.magento).value;
      DefaultsSettled(MagentoDefaults(d, req));
      SettledIsFixed(out, req);
    }
  }

  /** With no Magento version and no service versions, every service gets its fixed fallback (`Fallback`). */
  lemma FallbackCompleteness(d: Deck, cat: Magento.Catalog)
    requires d.project != "" && d.magento == ""
    requires forall s :: VersionOf(d, s) == ""
    ensures Resolve(d, cat).Resolved?
    ensures var out := Resolve(d, cat).config;
      && VersionOf(out, PHP) == "8.3" && VersionOf(out, Nginx) == "1.28"
      && VersionOf(out, MariaDB) == "11.4" && VersionOf(out, OpenSearch) == "3"
      && VersionOf(out, Redis) == "7.4" && VersionOf(out, RabbitMQ) == "4.1"
  {
    assert VersionOf(d, PHP) == "" && VersionOf(d, Nginx) == "" && VersionOf(d, MariaDB) == "";
    assert VersionOf(d, OpenSearch) == "" && VersionOf(d, Redis) == "" && VersionOf(d, RabbitMQ) == "";
  }

  /** An empty or missing extension list becomes the default list; a non-empty one is kept. */
  lemma ExtensionsDefaulted(d: Deck, cat: Magento.Catalog)
    requires Resolve(d, cat).Resolved?
    ensures var out := Resolve(d, cat).config;
      out.php.Some? &&
      out.php.value.extensions ==
        if d.php.Some? && |d.php.value.extensions| > 0 then d.php.value.extensions else DefaultExtensions
  {
  }

  /** The Swoole port becomes 9501 only for an enabled block without a port; otherwise the block is kept. */
  lemma SwooleDefaulted(d: Deck, cat: Magento.Catalog)
    requires Resolve(d, cat).Resolved?
    ensures var out := Resolve(d, cat).config;
      if d.swoole.Some? && d.swoole.value.enabled && d.swoole.value.port == 0
      then out.swoole == Some(d.swoole.value.(port := 9501))
      else out.swoole == d.swoole
  {
  }

  /** Resolution leaves the project, the Magento version, Node and every configuration map alone. */
  lemma NothingElseChanges(d: Deck, cat: Magento.Catalog, s: Service)
    requires Resolve(d, cat).Resolved?
    ensures var out := Resolve(d, cat).config;
      && out.project == d.project && out.magento == d.magento && out.node == d.node
      && ConfigurationOf(out, s) == ConfigurationOf(d, s)
  {
    ResolvedPhases(d, cat);
    if d.magento == "" {
      DefaultsVersion(d, s);
    } else {
      var req := Magento.Requirements(cat, d.magento).value;
      MagentoDefaultsVersion(d, req, s);
      DefaultsVersion(MagentoDefaults(d, req), s);
    }
  }

  // ---------------------------------------------------------------- the mutable config

  class DeckConfig {
    var project: string
    var magento: string
    var php: Option<PHPConfig>
    var nginx: Option<ServiceConfig>
    var mariadb: Option<ServiceConfig>
    var opensearch: Option<ServiceConfig>
    var redis: Option<ServiceConfig>
    var rabbitmq: Option<ServiceConfig>
    var node: Option<NodeConfig>
    var swoole: Option<SwooleConfig>

    /** The config as a value. */
    function Value(): (d: Deck)
      reads this
    {
      Deck(project, magento, php, nginx, mariadb, opensearch, redis, rabbitmq, node, swoole)
    }

    /** The config as `yaml.Unmarshal` leaves it. */
    constructor (parsed: Deck)
      ensures Value() == parsed
    {
      project := parsed.project;
      magento := parsed.magento;
      php := parsed.php;
      nginx := parsed.nginx;
      mariadb := parsed.mariadb;
      opensearch := parsed.opensearch;
      redis := parsed.redis;
      rabbitmq := parsed.rabbitmq;
      node := parsed.node;
      swoole := parsed.swoole;
    }

    /**
     * Phase A: looks the Magento version up and copies the catalog's versions
     * into the empty service versions, creating missing blocks. A failed lookup
     * changes nothing and wraps the lookup's error.
     */
    method ApplyMagentoDefaults(cat: Magento.Catalog) returns (err: Option<string>)
      modifies this
      ensures err.Some? <==> Magento.GetVersion(cat, old(magento)).None?
      ensures err.Some? ==> Value() == old(Value())
      ensures err.Some? ==> exists vs ::
        Magento.Enumerates(vs, cat) && err.value == RequirementsErrorPrefix + Magento.UnsupportedMessage(old(magento), vs)
      ensures err.None? ==>
        Value() == MagentoDefaults(old(Value()), Magento.Requirements(cat, old(magento)).value)
    {
      var requirements := Magento.GetRequirements(cat, magento);
      if requirements.Err? {
        return Some(RequirementsErrorPrefix + requirements.error);
      }
      var req := requirements.value;
      php := FillPHPBlock(php, req.php);
      nginx := FillServiceBlock(nginx, req.nginx);
      mariadb := FillServiceBlock(mariadb, req.mariadb);
      opensearch := FillServiceBlock(opensearch, req.opensearch);
      redis := FillServiceBlock(redis, req.redis);
      rabbitmq := FillServiceBlock(rabbitmq, req.rabbitmq);
      return None;
    }

    /** Phase B: fallback versions, default extensions and the default Swoole port. */
    method ApplyDefaults()
      modifies this
      ensures project == old(project) && magento == old(magento) && node == old(node)
      ensures php == Some(DefaultPHP(old(php)))
      ensures nginx == Some(FillService(old(nginx), Fallback(Nginx)))
      ensures mariadb == Some(FillService(old(mariadb), Fallback(MariaDB)))
      ensures opensearch == Some(FillService(old(opensearch), Fallback(OpenSearch)))
      ensures redis == Some(FillService(old(redis), Fallback(Redis)))
      ensures rabbitmq == Some(FillService(old(rabbitmq), Fallback(RabbitMQ)))
      ensures swoole == DefaultSwoole(old(swoole))
      ensures Value() == Defaults(old(Value()))
    {
      php := FillPHPBlock(php, Fallback(PHP));
      if |php.value.extensions| == 0 {
        php := Some(php.value.(extensions := DefaultExtensions));
      }
      nginx := FillServiceBlock(nginx, Fallback(Nginx));
      mariadb := FillServiceBlock(mariadb, Fallback(MariaDB));
      opensearch := FillServiceBlock(opensearch, Fallback(OpenSearch));
      redis := FillServiceBlock(redis, Fallback(Redis));
      rabbitmq := FillServiceBlock(rabbitmq, Fallback(RabbitMQ));
      if swoole.Some? && swoole.value.enabled && swoole.value.port == 0 {
        swoole := Some(swoole.value.(port := DefaultSwoolePort));
      }
    }

    /** One PHP block of either phase: allocated when nil, its version set to `v` when empty. */
    static method FillPHPBlock(block: Option<PHPConfig>, v: string) returns (filled: Option<PHPConfig>)
      ensures filled == Some(FillPHP(block, v))
    {
      filled := block;
      if filled.None? {
        filled := Some(PHPConfig("", []));
      }
      if filled.value.version == "" {
        filled := Some(filled.value.(version := v));
      }
    }

    /** One service block of either phase: allocated when nil, its version set to `v` when empty. */
    static method FillServiceBlock(block: Option<ServiceConfig>, v: string) returns (filled: Option<ServiceConfig>)
      ensures filled == Some(FillService(block, v))
    {
      filled := block;
      if filled.None? {
        filled := Some(ServiceConfig("", map[]));
      }
      if filled.value.version == "" {
        filled := Some(filled.value.(version := v));
      }
    }

    // -------------------------------------------------------------- nil-safe getters

    function GetPHPExtensions(): (exts: seq<string>)
      reads this
      ensures php.None? ==> exts == []
      ensures php.Some? ==> exts == php.value.extensions
    {
      if php.None? then [] else php.value.extensions
    }

    function HasPHPExtension(ext: string): (has: bool)
      reads this
      ensures has <==> ext in GetPHPExtensions()
    {
      if php.None? then false else HasExtension(php, ext)
    }

    function GetNodeVersion(): (v: string)
      reads this
      ensures node.None? ==> v == ""
      ensures node.Some? ==> v == node.value.version
    {
      NodeConfigGetVersion(node)
    }

    function IsNodeEnabled(): (enabled: bool)
      reads this
      ensures enabled <==> GetNodeVersion() != ""
    {
      node.Some? && node.value.version != ""
    }

    function IsSwooleEnabled(): (enabled: bool)
      reads this
      ensures enabled <==> swoole.Some? && swoole.value.enabled
    {
      swoole.Some? && swoole.value.enabled
    }

    function GetSwoolePort(): (port: int)
      reads this
      ensures swoole.None? ==> port == 0
      ensures swoole.Some? ==> port == swoole.value.port
    {
      if swoole.None? then 0 else swoole.value.port
    }

    function GetPHPVersion(): (v: string)
      reads this
      ensures v == VersionOf(Value(), PHP)
    {
      if php.None? then "" else php.value.version
    }

    function GetNginxVersion(): (v: string)
      reads this
      ensures v == VersionOf(Value(), Nginx)
    {
      if nginx.None? then "" else nginx.value.version
    }

    function GetMariaDBVersion(): (v: string)
      reads this
      ensures v == VersionOf(Value(), MariaDB)
    {
      if mariadb.None? then "" else mariadb.value.version
    }

    function GetOpenSearchVersion(): (v: string)
      reads this
      ensures v == VersionOf(Value(), OpenSearch)
    {
      if opensearch.None? then "" else opensearch.value.version
    }

    function GetRedisVersion(): (v: string)
      reads this
      ensures v == VersionOf(Value(), Redis)
    {
      if redis.None? then "" else redis.value.version
    }

    function GetRabbitMQVersion(): (v: string)
      reads this
      ensures v == VersionOf(Value(), RabbitMQ)
    {
      if rabbitmq.None? then "" else rabbitmq.value.version
    }
  }

  /** On a settled config every version getter is non-empty and an enabled Swoole reports a port. */
  lemma SettledGetters(c: DeckConfig)
    requires Settled(c.Value())
    ensures c.GetPHPVersion() != "" && c.GetNginxVersion() != "" && c.GetMariaDBVersion() != ""
    ensures c.GetOpenSearchVersion() != "" && c.GetRedisVersion() != "" && c.GetRabbitMQVersion() != ""
    ensures |c.GetPHPExtensions()| > 0
    ensures c.IsSwooleEnabled() ==> c.GetSwoolePort() != 0
  {
    var d := c.Value();
    assert HasBlock(d, PHP) && VersionOf(d, PHP) != "";
    assert HasBlock(d, Nginx) && VersionOf(d, Nginx) != "";
    assert HasBlock(d, MariaDB) && VersionOf(d, MariaDB) != "";
    assert HasBlock(d, OpenSearch) && VersionOf(d, OpenSearch) != "";
    assert HasBlock(d, Redis) && VersionOf(d, Redis) != "";
    assert HasBlock(d, RabbitMQ) && VersionOf(d, RabbitMQ) != "";
  }

  /**
   * `LoadConfig` once the file is parsed: an empty project name fails before any
   * lookup, an unresolvable Magento version fails with the wrapped lookup error,
   * and otherwise both phases run on a fresh config.
   */
  method LoadConfig(parsed: Deck, cat: Magento.Catalog) returns (r: Result<DeckConfig>)
    ensures parsed.project == "" ==> r == Err(ProjectRequiredError)
    ensures Resolve(parsed, cat).UnsupportedMagento? ==> r.Err? && exists vs ::
      Magento.Enumerates(vs, cat) && r.error == RequirementsErrorPrefix + Magento.UnsupportedMessage(parsed.magento, vs)
    ensures Resolve(parsed, cat).Resolved? ==>
      r.Ok? && fresh(r.value) && r.value.Value() == Resolve(parsed, cat).config
  {
    var config := new DeckConfig(parsed);
    if config.project == "" {
      return Err(ProjectRequiredError);
    }
    if config.magento != "" {
      var err := config.ApplyMagentoDefaults(cat);
      if err.Some? {
        return Err(err.value);
      }
    }
    config.ApplyDefaults();
    return Ok(config);
  }
}
