/**
 * The Magento version catalog: a table from a platform-version string to the
 * versions of the services that platform version needs. The catalog is a map
 * value handed to every operation instead of a process-wide variable.
 */
module Magento {
  import opened Wrappers
  import opened GoStrings

  /** One service block of a catalog record. */
  datatype ServiceVersion = ServiceVersion(version: string)

  /** One catalog record, as parsed from its YAML file; a missing block is `None`. */
  datatype MagentoVersion = MagentoVersion(
    version: string,
    php: Option<ServiceVersion>,
    nginx: Option<ServiceVersion>,
    mariadb: Option<ServiceVersion>,
    opensearch: Option<ServiceVersion>,
    redis: Option<ServiceVersion>,
    rabbitmq: Option<ServiceVersion>)

  /** The flat form of a record handed to the config resolver. */
  datatype MagentoRequirements = MagentoRequirements(
    version: string,
    php: string,
    nginx: string,
    mariadb: string,
    opensearch: string,
    redis: string,
    rabbitmq: string)

  type Catalog = map<string, MagentoVersion>

  /**
   * One entry of the bundled `versions` directory: its name, whether it is a
   * directory, and the record its contents parse to (`None` when reading the
   * file or unmarshalling it fails).
   */
  datatype Entry = Entry(name: string, isDir: bool, parsed: Option<MagentoVersion>)

  // ---------------------------------------------------------------- loading

  /** The entry is a readable, parsable `.yaml` file. */
  predicate Loadable(e: Entry)
  {
    !e.isDir && HasSuffix(e.name, ".yaml") && e.parsed.Some?
  }

  /** The entry is loadable and its record declares version `key`. */
  predicate Provides(e: Entry, key: string)
  {
    Loadable(e) && e.parsed.value.version == key
  }

  /** The catalog after processing `entries` in order, starting from an empty one. */
  function LoadFold(entries: seq<Entry>): (cat: Catalog)
  {
    if entries == [] then map[]
    else
      var cat := LoadFold(entries[..|entries| - 1]);
      var e := entries[|entries| - 1];
      if Loadable(e) then cat[e.parsed.value.version := e.parsed.value] else cat
  }

  /**
   * Fills the catalog from the directory listing; `None` is a directory that
   * could not be read, which leaves the catalog empty.
   */
  method LoadAllVersions(dir: Option<seq<Entry>>) returns (cache: Catalog)
    ensures dir.None? ==> cache == map[]
    ensures dir.Some? ==> cache == LoadFold(dir.value)
  {
    cache := map[];
    if dir.None? {
      return;
    }
    var entries := dir.value;
    for i := 0 to |entries|
      invariant cache == LoadFold(entries[..i])
    {
      assert entries[..i + 1][..i] == entries[..i];
      var entry := entries[i];
      if entry.isDir || !HasSuffix(entry.name, ".yaml") {
        continue;
      }
      if entry.parsed.None? {
        continue;
      }
      var ver := entry.parsed.value;
      cache := cache[ver.version := ver];
    }
    assert entries[..|entries|] == entries;
  }

  /** Every record is stored under its own `version` field. */
  ghost predicate WellKeyed(cat: Catalog)
  {
    forall k :: k in cat ==> cat[k].version == k
  }

  /** Loading yields a catalog whose keys are exactly the versions the loadable entries declare. */
  lemma {:induction false} LoadKeys(entries: seq<Entry>, key: string)
    ensures key in LoadFold(entries) <==> exists i :: 0 <= i < |entries| && Provides(entries[i], key)
  {
    if entries != [] {
      var init := entries[..|entries| - 1];
      LoadKeys(init, key);
      if exists i :: 0 <= i < |init| && Provides(init[i], key) {
        var i :| 0 <= i < |init| && Provides(init[i], key);
        assert Provides(entries[i], key);
      }
      if exists i :: 0 <= i < |entries| && Provides(entries[i], key) {
        var i :| 0 <= i < |entries| && Provides(entries[i], key);
        if i < |init| {
          assert Provides(init[i], key);
        }
      }
    }
  }

  /**
   * The record stored under a key comes from the LAST loadable entry declaring
   * that key: a later file with the same version replaces an earlier one.
   */
  lemma {:induction false} LoadLastWins(entries: seq<Entry>, i: nat)
    requires i < |entries| && Loadable(entries[i])
    requires forall j :: i < j < |entries| ==> !Provides(entries[j], entries[i].parsed.value.version)
    ensures entries[i].parsed.value.version in LoadFold(entries)
    ensures LoadFold(entries)[entries[i].parsed.value.version] == entries[i].parsed.value
  {
    var init := entries[..|entries| - 1];
    if i < |entries| - 1 {
      forall j | i < j < |init|
        ensures !Provides(init[j], entries[i].parsed.value.version)
      {
        assert init[j] == entries[j];
      }
      assert init[i] == entries[i];
      LoadLastWins(init, i);
    }
  }

  /** Loading keeps every record under its own version. */
  lemma {:induction false} LoadWellKeyed(entries: seq<Entry>)
    ensures WellKeyed(LoadFold(entries))
  {
    if entries != [] {
      LoadWellKeyed(entries[..|entries| - 1]);
    }
  }

  // ---------------------------------------------------------------- lookup

  /**
   * The version with a `-p…` patch suffix removed: the text before the first
   * "-p" when that occurrence is not at the very start, the input otherwise.
   */
  function GetBaseVersion(version: string): (base: string)
    ensures base <= version
    ensures base != version ==>
      |base| > 0 && OccursAt(version, "-p", |base|) && !Occurs(base, "-p")
    ensures base == version <==> Index(version, "-p") <= 0
  {
    var idx := Index(version, "-p");
    if idx > 0 then
      BeforeFirst(version, "-p");
      version[..idx]
    else version
  }

  /** Stripping the patch suffix twice changes nothing more. */
  lemma BaseVersionIdempotent(version: string)
    ensures GetBaseVersion(GetBaseVersion(version)) == GetBaseVersion(version)
  {
    var base := GetBaseVersion(version);
    if base != version {
      assert Index(base, "-p") == -1;
    }
  }

  /** A patch qualifier at the start is not stripped; one after a base version is. */
  lemma BaseVersionExamples()
    ensures GetBaseVersion("-p1") == "-p1"
    ensures GetBaseVersion("2.4.8-p5") == "2.4.8"
    ensures GetBaseVersion("2.4.8") == "2.4.8"
  {
    assert OccursAt("-p1", "-p", 0);
    assert OccursAt("2.4.8-p5", "-p", 5);
    forall k | 0 <= k < 5
      ensures !OccursAt("2.4.8-p5", "-p", k)
    {
      assert "2.4.8-p5"[k..k + 2][0] == "2.4.8-p5"[k];
    }
    assert "2.4.8-p5"[..5] == "2.4.8";
    forall k | 0 <= k < 4
      ensures !OccursAt("2.4.8", "-p", k)
    {
      assert "2.4.8"[k..k + 2][0] == "2.4.8"[k];
    }
  }

  /**
   * The record for a version: the exact key if present, otherwise the key with
   * its patch suffix removed, otherwise nothing.
   */
  function GetVersion(cat: Catalog, version: string): (r: Option<MagentoVersion>)
    ensures version in cat ==> r == Some(cat[version])
    ensures version !in cat && GetBaseVersion(version) in cat ==> r == Some(cat[GetBaseVersion(version)])
    ensures r.None? <==> version !in cat && GetBaseVersion(version) !in cat
  {
    if version in cat then Some(cat[version])
    else
      var base := GetBaseVersion(version);
      if base != version && base in cat then Some(cat[base]) else None
  }

  /** A patched version falls back to its base entry when it has none of its own. */
  lemma SuffixResolution(cat: Catalog, rec: MagentoVersion)
    requires "2.4.8-p5" !in cat
    requires cat["2.4.8" := rec] == cat
    ensures GetVersion(cat, "2.4.8-p5") == Some(rec)
  {
    BaseVersionExamples();
  }

  /** The version of a service block, `""` when the block is missing. */
  function BlockVersion(block: Option<ServiceVersion>): (v: string)
  {
    if block.Some? then block.value.version else ""
  }

  /** The flat requirements of a record. */
  function ToRequirements(ver: MagentoVersion): (req: MagentoRequirements)
  {
    MagentoRequirements(
      ver.version,
      BlockVersion(ver.php),
      BlockVersion(ver.nginx),
      BlockVersion(ver.mariadb),
      BlockVersion(ver.opensearch),
      BlockVersion(ver.redis),
      BlockVersion(ver.rabbitmq))
  }

  /** The requirements `GetRequirements` returns on success. */
  function Requirements(cat: Catalog, version: string): (r: Option<MagentoRequirements>)
    ensures r.Some? <==> GetVersion(cat, version).Some?
  {
    var ver := GetVersion(cat, version);
    if ver.Some? then Some(ToRequirements(ver.value)) else None
  }

  /**
   * On a catalog stored by version, the requirements name the version of the
   * record that was found: the requested string on an exact hit, its base
   * version otherwise. Each service field is that block's version or `""`.
   */
  lemma RequirementsFields(cat: Catalog, version: string)
    requires WellKeyed(cat) && Requirements(cat, version).Some?
    ensures var req := Requirements(cat, version).value;
      && (version in cat ==> req.version == version)
      && (version !in cat ==> req.version == GetBaseVersion(version) != version)
      && req.php == BlockVersion(GetVersion(cat, version).value.php)
      && req.nginx == BlockVersion(GetVersion(cat, version).value.nginx)
      && req.mariadb == BlockVersion(GetVersion(cat, version).value.mariadb)
      && req.opensearch == BlockVersion(GetVersion(cat, version).value.opensearch)
      && req.redis == BlockVersion(GetVersion(cat, version).value.redis)
      && req.rabbitmq == BlockVersion(GetVersion(cat, version).value.rabbitmq)
  {
  }

  // ---------------------------------------------------------------- enumeration

  predicate Distinct(vs: seq<string>)
  {
    forall i, j :: 0 <= i < j < |vs| ==> vs[i] != vs[j]
  }

  /** `vs` lists every catalog key exactly once, in some order. */
  ghost predicate Enumerates(vs: seq<string>, cat: Catalog)
  {
    Distinct(vs) && forall v :: v in vs <==> v in cat
  }

  /** The keys of the catalog, each once; the order is Go's unspecified map order. */
  method GetSupportedVersions(cat: Catalog) returns (versions: seq<string>)
    ensures Enumerates(versions, cat)
    ensures |versions| == |cat|
  {
    versions := [];
    var rest := cat.Keys;
    while rest != {}
      invariant rest <= cat.Keys
      invariant Distinct(versions)
      invariant forall v :: v in versions <==> v in cat && v !in rest
      invariant |versions| + |rest| == |cat.Keys|
      decreases rest
    {
      var v :| v in rest;
      versions := versions + [v];
      rest := rest - {v};
    }
  }

  /** The message of the error for a version the catalog cannot resolve. */
  function UnsupportedMessage(version: string, supported: seq<string>): (msg: string)
    ensures "unsupported Magento version: " + version <= msg
    ensures HasSuffix(msg, ")")
  {
    "unsupported Magento version: " + version + " (versions available: " + Join(supported, ", ") + ")"
  }

  /** The unsupported-version message names the requested version and every supported one. */
  lemma UnsupportedMessageMentions(version: string, supported: seq<string>, cat: Catalog)
    requires Enumerates(supported, cat)
    ensures Occurs(UnsupportedMessage(version, supported), version)
    ensures forall k :: k in cat ==> Occurs(UnsupportedMessage(version, supported), k)
  {
    var head := "unsupported Magento version: ";
    var mid := " (versions available: ";
    var list := Join(supported, ", ");
    assert OccursAt(version, version, 0);
    OccursInfix(head, version, mid + list + ")", version);
    assert head + version + (mid + list + ")") == UnsupportedMessage(version, supported);
    forall k | k in cat
      ensures Occurs(UnsupportedMessage(version, supported), k)
    {
      var i :| 0 <= i < |supported| && supported[i] == k;
      JoinOccurs(supported, ", ", i);
      OccursInfix(head + version + mid, list, ")", k);
    }
  }

  /**
   * The requirements for a version, or an error naming the version and the
   * supported ones when the catalog cannot resolve it.
   */
  method GetRequirements(cat: Catalog, version: string) returns (r: Result<MagentoRequirements>)
    ensures r.Err? <==> GetVersion(cat, version).None?
    ensures r.Ok? ==> Requirements(cat, version) == Some(r.value)
    ensures r.Err? ==> exists vs :: Enumerates(vs, cat) && r.error == UnsupportedMessage(version, vs)
  {
    var ver := GetVersion(cat, version);
    if ver.None? {
      var supported := GetSupportedVersions(cat);
      return Err(UnsupportedMessage(version, supported));
    }
    var v := ver.value;
    var req := MagentoRequirements(v.version, "", "", "", "", "", "");
    if v.php.Some? {
      req := req.(php := v.php.value.version);
    }
    if v.nginx.Some? {
      req := req.(nginx := v.nginx.value.version);
    }
    if v.mariadb.Some? {
      req := req.(mariadb := v.mariadb.value.version);
    }
    if v.opensearch.Some? {
      req := req.(opensearch := v.opensearch.value.version);
    }
    if v.redis.Some? {
      req := req.(redis := v.redis.value.version);
    }
    if v.rabbitmq.Some? {
      req := req.(rabbitmq := v.rabbitmq.value.version);
    }
    return Ok(req);
  }

  /**
   * The lexicographically greatest key, `""` for an empty catalog. This is
   * string order, not semantic-version order.
   */
  method GetLatestVersion(cat: Catalog) returns (latest: string)
    ensures cat == map[] ==> latest == ""
    ensures cat != map[] ==> latest in cat
    ensures forall k :: k in cat ==> k == latest || Less(k, latest)
  {
    var versions := GetSupportedVersions(cat);
    if |versions| == 0 {
      return "";
    }
    latest := versions[0];
    for i := 0 to |versions|
      invariant latest in versions
      invariant forall j :: 0 <= j < i ==> !Less(latest, versions[j])
    {
      var v := versions[i];
      if Less(latest, v) {
        forall j | 0 <= j < i
          ensures !Less(v, versions[j])
        {
          if Less(v, versions[j]) {
            LessTransitive(latest, v, versions[j]);
          }
        }
        LessIrreflexive(v);
        latest := v;
      }
    }
    forall k | k in cat
      ensures k == latest || Less(k, latest)
    {
      var j :| 0 <= j < |versions| && versions[j] == k;
      LessTotal(k, latest);
    }
  }

  /** The `major.minor` group of a version: the first two of at most three dot-separated pieces. */
  function MajorMinor(version: string): (r: Option<string>)
  {
    var parts := SplitN(version, ".", 3);
    if |parts| >= 2 then Some(parts[0] + "." + parts[1]) else None
  }

  /** The text of `s` before its first dot, all of `s` when it has none. */
  function UpToDot(s: string): (r: string)
  {
    var j := Index(s, ".");
    if j < 0 then s else s[..j]
  }

  /** The text before the first dot is a dot-free prefix that stops at a dot or at the end. */
  lemma UpToDotShape(s: string)
    ensures UpToDot(s) <= s
    ensures '.' !in UpToDot(s)
    ensures |UpToDot(s)| == |s| || s[|UpToDot(s)|] == '.'
  {
    var j := Index(s, ".");
    if j < 0 {
      OccursChar(s, '.');
    } else {
      BeforeFirst(s, ".");
      OccursChar(s[..j], '.');
      assert s[j..j + 1] == ".";
    }
  }

  /** `MajorMinor` is the text before the first dot, a dot, and the text up to the next dot. */
  lemma MajorMinorUnfold(version: string)
    ensures var i := Index(version, ".");
      MajorMinor(version) ==
        if i < 0 then None else Some(UpToDot(version) + "." + UpToDot(version[i + 1..]))
  {
    var i := Index(version, ".");
    if i >= 0 {
      var rest := version[i + 1..];
      var j := Index(rest, ".");
      if j < 0 {
        assert SplitN(rest, ".", 2) == [rest];
      } else {
        assert SplitN(rest[j + 1..], ".", 1) == [rest[j + 1..]];
        assert SplitN(rest, ".", 2) == [rest[..j]] + [rest[j + 1..]];
      }
      assert SplitN(version, ".", 3) == [version[..i]] + SplitN(rest, ".", 2);
    }
  }

  /** A version has a group exactly when it contains a dot. */
  lemma MajorMinorDefined(version: string)
    ensures MajorMinor(version).Some? <==> '.' in version
  {
    MajorMinorUnfold(version);
    OccursChar(version, '.');
  }

  /** Two dot-free pieces joined by a dot hold exactly one dot. */
  lemma OneDot(major: string, minor: string)
    requires '.' !in major && '.' !in minor
    ensures multiset(major + "." + minor)['.'] == 1
  {
    assert major + "." + minor == major + ("." + minor);
    assert multiset(major + ("." + minor)) == multiset(major) + (multiset(".") + multiset(minor));
  }

  /** The text before a dot, the dot, and a prefix of the text after it form a prefix of the whole. */
  lemma DottedPrefix(s: string, i: int, minor: string)
    requires 0 <= i < |s| && s[i] == '.' && minor <= s[i + 1..]
    ensures s[..i] + "." + minor == s[..i + 1 + |minor|]
  {
    assert s[..i + 1 + |minor|] == s[..i] + [s[i]] + s[i + 1..][..|minor|];
  }

  /** The text before a dot, the dot and the next dot-free run form a one-dot prefix ending at a dot or at the end. */
  lemma DottedGroupShape(version: string, i: int)
    requires 0 <= i < |version| && version[i] == '.' && '.' !in version[..i]
    ensures var g := version[..i] + "." + UpToDot(version[i + 1..]);
      && g <= version
      && multiset(g)['.'] == 1
      && (|g| == |version| || version[|g|] == '.')
  {
    var rest := version[i + 1..];
    var minor := UpToDot(rest);
    UpToDotShape(rest);
    OneDot(version[..i], minor);
    DottedPrefix(version, i, minor);
  }

  /**
   * The group of a version is the prefix of the version that holds exactly one
   * dot and stops at the second dot or at the end.
   */
  lemma MajorMinorShape(version: string)
    requires MajorMinor(version).Some?
    ensures var g := MajorMinor(version).value;
      && g <= version
      && multiset(g)['.'] == 1
      && (|g| == |version| || version[|g|] == '.')
  {
    MajorMinorUnfold(version);
    var i := Index(version, ".");
    UpToDotShape(version);
    assert UpToDot(version) == version[..i];
    DottedGroupShape(version, i);
  }

  /** The keys of a group, none when the group is not there yet. */
  function Members(groups: map<string, seq<string>>, g: string): (vs: seq<string>)
  {
    if g in groups then groups[g] else []
  }

  /** Every group is non-empty and lists each of its keys once. */
  ghost predicate GroupsDistinct(groups: map<string, seq<string>>)
  {
    forall g :: g in groups ==> |groups[g]| > 0 && Distinct(groups[g])
  }

  /** Every grouped key is a catalog key already visited and in the group it belongs to. */
  ghost predicate GroupsSound(cat: Catalog, rest: set<string>, groups: map<string, seq<string>>)
  {
    forall g, v :: g in groups && v in groups[g] ==> v in cat && v !in rest && MajorMinor(v) == Some(g)
  }

  /** Every visited catalog key with a group is listed in it. */
  ghost predicate GroupsComplete(cat: Catalog, rest: set<string>, groups: map<string, seq<string>>)
  {
    forall v :: v in cat && v !in rest && MajorMinor(v).Some? ==>
      MajorMinor(v).value in groups && v in groups[MajorMinor(v).value]
  }

  /** Appending a key not yet grouped keeps the groups free of repetitions. */
  lemma AppendDistinct(cat: Catalog, rest: set<string>, groups: map<string, seq<string>>, g: string, version: string)
    requires GroupsDistinct(groups) && GroupsSound(cat, rest, groups) && version in rest
    ensures GroupsDistinct(groups[g := Members(groups, g) + [version]])
  {
    var members := Members(groups, g);
    assert version !in members;
    assert forall i, j :: 0 <= i < j < |members| ==> members[i] != members[j];
  }

  /** Appending a visited key to its own group keeps every grouped key where it belongs. */
  lemma AppendSound(cat: Catalog, rest: set<string>, groups: map<string, seq<string>>, g: string, version: string)
    requires GroupsSound(cat, rest, groups) && version in cat && MajorMinor(version) == Some(g)
    ensures GroupsSound(cat, rest - {version}, groups[g := Members(groups, g) + [version]])
  {
    var updated := groups[g := Members(groups, g) + [version]];
    forall h, v | h in updated && v in updated[h]
      ensures v in cat && v !in rest - {version} && MajorMinor(v) == Some(h)
    {
      if v != version {
        assert v in groups[h];
      }
    }
  }

  /** Appending a visited key to its own group lists every visited key that has a group. */
  lemma AppendComplete(cat: Catalog, rest: set<string>, groups: map<string, seq<string>>, g: string, version: string)
    requires GroupsComplete(cat, rest, groups) && MajorMinor(version) == Some(g)
    ensures GroupsComplete(cat, rest - {version}, groups[g := Members(groups, g) + [version]])
  {
    var updated := groups[g := Members(groups, g) + [version]];
    forall v | v in cat && v !in rest - {version} && MajorMinor(v).Some?
      ensures MajorMinor(v).value in updated && v in updated[MajorMinor(v).value]
    {
      if v != version && MajorMinor(v).value == g {
        assert v in Members(groups, g);
      }
    }
  }

  /**
   * Groups the catalog keys by `major.minor`; a key without a dot belongs to
   * no group. Each group lists its keys once, in Go's unspecified map order.
   */
  method ListVersionsByMajorMinor(cat: Catalog) returns (groups: map<string, seq<string>>)
    ensures forall g :: g in groups ==> |groups[g]| > 0 && Distinct(groups[g])
    ensures forall g, v :: g in groups && v in groups[g] ==> v in cat && MajorMinor(v) == Some(g)
    ensures forall v :: v in cat && MajorMinor(v).Some? ==>
      MajorMinor(v).value in groups && v in groups[MajorMinor(v).value]
  {
    groups := map[];
    var rest := cat.Keys;
    while rest != {}
      invariant rest <= cat.Keys
      invariant GroupsDistinct(groups)
      invariant GroupsSound(cat, rest, groups)
      invariant GroupsComplete(cat, rest, groups)
      decreases rest
    {
      var version :| version in rest;
      // `SplitN(version, ".", 3)` with at least two pieces gives the group of the first two.
      var mm := MajorMinor(version);
      if mm.Some? {
        var majorMinor := mm.value;
        AppendDistinct(cat, rest, groups, majorMinor, version);
        AppendSound(cat, rest, groups, majorMinor, version);
        AppendComplete(cat, rest, groups, majorMinor, version);
        groups := groups[majorMinor := Members(groups, majorMinor) + [version]];
      }
      rest := rest - {version};
    }
  }
}
