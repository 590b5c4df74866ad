# deck: the version catalog, the config resolver and the setup string rules

`deck` sets up a Magento 2 development environment from a project's
`deck.yaml`. This project models the deterministic core of the tool in Dafny
and proves properties of that model:

- **The Magento version catalog** (`Magento`, in `magento_versions.dfy`) maps a
  platform-version string to the versions of PHP, Nginx, MariaDB, OpenSearch,
  Redis and RabbitMQ that the platform needs.
  - Loading is a fold over the parsed records of the bundled directory, keyed
    by each record's own `version` field.
  - Lookup tries the exact key first. It then retries with a `-p…` patch
    suffix removed.
  - A record becomes flat `MagentoRequirements`, in which a missing block
    gives `""`.
  - The catalog can list its keys, pick the lexicographically greatest key and
    group its keys by `major.minor`.
  - The catalog is a map value passed to every operation, not a process-wide
    variable.
- **The config resolver** (`Config` in `config.dfy`, `ConfigServices` in
  `config_services.dfy`). `LoadConfig` runs once the file is parsed:
  - it rejects an empty project name;
  - phase A (`ApplyMagentoDefaults`) copies catalog versions into the
    service versions that are still empty, creating missing blocks;
  - phase B (`ApplyDefaults`) fills any version still empty with a fixed
    fallback, defaults the PHP extension list and defaults the Swoole port.

  `DeckConfig` is a class whose fields the two phases update in place. Its
  methods are tied to pure functions on the value `Deck`: `MagentoDefaults`,
  `Defaults` and `Resolve`. The precedence law, completeness, idempotence and
  "nothing else changes" are proved about those functions.
- **The string rules of `setup`** (`Setup`, in `setup.dfy`):
  - the hand-written substring test `contains`/`containsMiddle`;
  - the rewrite of an existing `.gitignore`;
  - the answer the overwrite confirmation accepts.

`GoStrings` (`go_strings.dfy`) models the parts of Go's `strings` package that the
catalog uses: `Index`, `HasSuffix`, `SplitN`, `Join` and string `<`. The
`strings.TrimSpace` and `strings.ToLower` calls of the confirmation are modelled
in `Setup` as `TrimSpace` (with `TrimLeft`, `TrimRight` and `unicode.IsSpace` as
`IsSpace`) and `ToLower`. `Wrappers`
(`wrappers.dfy`) holds `Option` and `Result`. A nil `*T` in Go is `None`. A nil
slice or map is the empty one, because every reader in the core treats nil and
empty alike.

The unsupported-version message lists the keys in Go's map order, and nothing
sorts them, so the model states the message for *some* enumeration of the keys.
`GetSupportedVersions` does not sort either, although its doc comment calls
the list ordered. The failures of `LoadConfig` are the code's exact error strings.

## Model

| member | source | states |
|---|---|---|
| GoStrings.Index | internal/magento/versions.go:134 | `-1` exactly when `sub` occurs nowhere; otherwise an occurrence with no earlier one |
| GoStrings.BeforeFirst | internal/magento/versions.go:134-135 | the text before the first occurrence of a non-empty `sub` contains no occurrence of it |
| GoStrings.HasSuffix | internal/magento/versions.go:59 | `strings.HasSuffix`: the suffix is no longer than the string and equals its last characters |
| GoStrings.SplitN | internal/magento/versions.go:171 | `strings.SplitN` with a positive limit gives between one and `n` pieces |
| GoStrings.JoinSplitN | internal/magento/versions.go:171 | joining the pieces of `SplitN` with the separator gives back the input |
| GoStrings.Join | internal/magento/versions.go:83 | `strings.Join`: `""` for no parts; otherwise the result begins with the first part and ends with the last |
| GoStrings.JoinOccurs | internal/magento/versions.go:83 | every part occurs in the joined string |
| GoStrings.Less | internal/magento/versions.go:159 | Go's string `<`: lexicographic order on characters, a proper prefix before its extensions (its meaning is stated by `LessIrreflexive`, `LessTransitive` and `LessTotal`) |
| GoStrings.LessIrreflexive | internal/magento/versions.go:159 | Go's string `<` is irreflexive |
| GoStrings.LessTransitive | internal/magento/versions.go:159 | Go's string `<` is transitive |
| GoStrings.LessTotal | internal/magento/versions.go:159 | any two distinct strings are ordered one way or the other |
| Magento.LoadAllVersions | internal/magento/versions.go:52-76 | an unreadable directory leaves the catalog empty; otherwise the loop's catalog is the in-order fold over the entries |
| Magento.LoadFold | internal/magento/versions.go:58-75 | the reference the loop is proved against: the catalog after taking the entries in order from an empty one, storing each loadable record under its own version (its meaning is stated by `LoadKeys`, `LoadLastWins` and `LoadWellKeyed`) |
| Magento.LoadKeys | internal/magento/versions.go:58-75 | a key is in the loaded catalog exactly when some entry that is a readable, parsable non-directory `.yaml` file declares it |
| Magento.LoadLastWins | internal/magento/versions.go:74 | the record under a key is the one from the last loadable entry declaring it, so a later file replaces an earlier one |
| Magento.LoadWellKeyed | internal/magento/versions.go:74 | every loaded record is stored under its own `version` field |
| Magento.GetBaseVersion | internal/magento/versions.go:132-138 | the result is a prefix of the input; it differs from the input exactly when the first "-p" is at an index > 0; a shortened result is non-empty, is followed by "-p" and contains no "-p" |
| Magento.BaseVersionIdempotent | internal/magento/versions.go:132-138 | removing the patch suffix twice equals removing it once |
| Magento.BaseVersionExamples | internal/magento/versions.go:131-138 | "-p1" stays as it is, "2.4.8-p5" becomes "2.4.8", "2.4.8" stays as it is |
| Magento.GetVersion | internal/magento/versions.go:114-129 | an exact key wins even when the base key also exists; on a miss the base key's record; nothing exactly when neither key is present |
| Magento.SuffixResolution | internal/magento/versions.go:120-126 | "2.4.8-p5" without its own record resolves to the record of "2.4.8" |
| Magento.ToRequirements | internal/magento/versions.go:87-108 | the flat requirements of one record: its own version and each service block's version, `""` for a missing block (stated as a contract by `RequirementsFields`) |
| Magento.Requirements | internal/magento/versions.go:79-111 | requirements exist exactly when the lookup finds a record |
| Magento.RequirementsFields | internal/magento/versions.go:87-108 | on a catalog keyed by version, `Version` is the found record's own version, which is the base version on a suffix fallback; each service field is that block's version or `""` |
| Magento.GetSupportedVersions | internal/magento/versions.go:141-147 | every catalog key exactly once, in some order, no other strings |
| Magento.GetRequirements | internal/magento/versions.go:79-111 | fails exactly when the lookup finds nothing, with the unsupported-version message over an enumeration of all keys; on success the record's flattened requirements |
| Magento.UnsupportedMessage | internal/magento/versions.go:82-83 | the `fmt.Errorf` text: it begins with "unsupported Magento version: " and the requested version, and ends with ")" |
| Magento.UnsupportedMessageMentions | internal/magento/versions.go:82-83 | the error message contains the requested version and every supported version |
| Magento.GetLatestVersion | internal/magento/versions.go:150-164 | `""` for an empty catalog; otherwise a catalog key that no key exceeds under string order |
| Magento.MajorMinor | internal/magento/versions.go:171-173 | the group key `parts[0]+"."+parts[1]` of `SplitN(version, ".", 3)`, none when there are fewer than two pieces (its meaning is stated by `MajorMinorDefined` and `MajorMinorShape`) |
| Magento.MajorMinorDefined | internal/magento/versions.go:171-172 | a version has a group exactly when it contains a dot |
| Magento.MajorMinorShape | internal/magento/versions.go:171-173 | a group is a prefix of the version with exactly one dot that ends at the version's end or at its second dot |
| Magento.ListVersionsByMajorMinor | internal/magento/versions.go:167-179 | every group is non-empty and repeats no key; every grouped key is a catalog key whose own group is that group; every key with a dot is in its group |
| ConfigServices.PHPConfigGetVersion | internal/config/services.go:57-62 | `""` for a nil block, otherwise exactly the block's `Version` |
| ConfigServices.ServiceConfigGetVersion | internal/config/services.go:64-97 | `""` for a nil block, otherwise exactly the block's `Version` |
| ConfigServices.NodeConfigGetVersion | internal/config/services.go:99-104 | `""` for a nil block, otherwise exactly the block's `Version` |
| ConfigServices.FindExtension | internal/config/services.go:111-116 | the range loop finds `ext` exactly when it is an element of the list |
| ConfigServices.HasExtension | internal/config/services.go:107-117 | true exactly when the block is present and lists `ext` |
| ConfigServices.GetConfigValue | internal/config/services.go:119-160 | the map's value for a present key; nil for a nil block or an absent key |
| Config.Resolve | internal/config/config.go:25-52 | fails on an empty project name whatever else holds; fails as unsupported exactly when a Magento version is set and the lookup finds nothing |
| Config.MagentoDefaultsVersion | internal/config/config.go:62-108 | phase A keeps a non-empty version, gives an empty one the catalog's version, leaves every block present and keeps its configuration map |
| Config.MagentoDefaults | internal/config/config.go:56-111 | phase A on a value: each of the six blocks is created when nil and an empty version takes the catalog's version (its meaning is stated by `MagentoDefaultsVersion`, `PrecedenceLaw`, `NothingElseChanges` and `SettledIsFixed`) |
| Config.DefaultsVersion | internal/config/config.go:115-168 | phase B keeps a non-empty version, gives an empty one the fallback, leaves every block present and keeps its configuration map |
| Config.Defaults | internal/config/config.go:114-174 | phase B on a value: each block is created when nil and an empty version takes its fixed fallback (`Fallback`, through `FillPHP` and `FillService`); a nil or empty extension list becomes the defaults (`DefaultPHP`); an enabled Swoole with port 0 gets 9501 (`DefaultSwoole`). Its meaning is stated by `DefaultsVersion`, `DefaultsSettled`, `DefaultsIdempotent`, `ExtensionsDefaulted` and `SwooleDefaulted` |
| Config.ResolvedPhases | internal/config/config.go:43-51 | a resolved config is phase B of the input, preceded by phase A with the found requirements when a Magento version is set |
| Config.PrecedenceLaw | internal/config/config.go:56-168 | for each service: a user version survives, an empty one takes a non-empty catalog version, and otherwise the fallback |
| Config.DefaultsSettled | internal/config/config.go:114-174 | after phase B, all six blocks exist with non-empty versions, the extension list is non-empty and an enabled Swoole has a port |
| Config.SettledIsFixed | internal/config/config.go:56-174 | neither phase changes a settled config |
| Config.DefaultsIdempotent | internal/config/config.go:114-174 | applying phase B to its own output changes nothing |
| Config.ResolveIdempotent | internal/config/config.go:25-52 | a resolved config is settled, and resolving it again gives it back |
| Config.FallbackCompleteness | internal/config/config.go:116-168 | with no Magento version and no service versions the versions are 8.3, 1.28, 11.4, 3, 7.4 and 4.1 |
| Config.ExtensionsDefaulted | internal/config/config.go:123-128 | a missing or empty extension list becomes the ten defaults in source order; a non-empty list is kept |
| Config.SwooleDefaulted | internal/config/config.go:171-173 | the port becomes 9501 only for a present, enabled block with port 0; otherwise the Swoole block, or its absence, is kept |
| Config.NothingElseChanges | internal/config/config.go:56-174 | the project, the Magento version, Node and every configuration map come out unchanged |
| Config.DeckConfig.constructor | internal/config/config.go:31-34 | the config holds exactly the parsed value |
| Config.DeckConfig.ApplyMagentoDefaults | internal/config/config.go:56-111 | fails exactly when the lookup finds nothing, changes nothing then and wraps the lookup message; otherwise the new state is phase A of the old one |
| Config.DeckConfig.ApplyDefaults | internal/config/config.go:114-174 | field by field, the new state is phase B of the old one; project, Magento version and Node are untouched |
| Config.DeckConfig.FillPHPBlock | internal/config/config.go:62-68 | a nil block becomes a fresh one, and an empty version becomes `v` |
| Config.DeckConfig.FillServiceBlock | internal/config/config.go:70-76 | a nil block becomes a fresh one, and an empty version becomes `v` |
| Config.DeckConfig.GetPHPExtensions | internal/config/config.go:177-182 | the empty list for a nil block, otherwise the block's list |
| Config.DeckConfig.HasPHPExtension | internal/config/config.go:184-189 | true exactly when `ext` is among the config's extensions |
| Config.DeckConfig.GetNodeVersion | internal/config/config.go:191-193 | `""` for a nil block, otherwise the block's version |
| Config.DeckConfig.IsNodeEnabled | internal/config/config.go:195-197 | true exactly when the Node version is non-empty |
| Config.DeckConfig.IsSwooleEnabled | internal/config/config.go:199-201 | true exactly when Swoole is present and enabled |
| Config.DeckConfig.GetSwoolePort | internal/config/config.go:203-208 | 0 for a nil block, otherwise the block's port |
| Config.DeckConfig.GetPHPVersion | internal/config/config.go:210-216 | the PHP version of the config value, `""` when the block is nil |
| Config.DeckConfig.GetNginxVersion | internal/config/config.go:218-224 | the Nginx version of the config value, `""` when the block is nil |
| Config.DeckConfig.GetMariaDBVersion | internal/config/config.go:226-232 | the MariaDB version of the config value, `""` when the block is nil |
| Config.DeckConfig.GetOpenSearchVersion | internal/config/config.go:234-240 | the OpenSearch version of the config value, `""` when the block is nil |
| Config.DeckConfig.GetRedisVersion | internal/config/config.go:242-248 | the Redis version of the config value, `""` when the block is nil |
| Config.DeckConfig.GetRabbitMQVersion | internal/config/config.go:250-256 | the RabbitMQ version of the config value, `""` when the block is nil |
| Config.SettledGetters | internal/config/config.go:177-256 | on a settled config every version getter is non-empty, the extension list is non-empty and an enabled Swoole reports a port |
| Config.LoadConfig | internal/config/config.go:25-52 | an empty project fails with "project name is required in deck.yaml"; an unresolvable Magento version fails with the wrapped lookup message; otherwise a fresh config holding the resolved value |
| Setup.ContainsMiddle | cmd/setup.go:179-186 | the scan over start positions 0 to `len(s)-len(sub)` finds `sub` exactly when it occurs at some index |
| Setup.Contains | cmd/setup.go:175-177 | true exactly when `sub` occurs in `s`; always true for an empty `sub`; false when `sub` is longer than `s` |
| Setup.WithNewline | cmd/setup.go:136-138 | the working content: a newline is appended when the content is empty or does not end in one (its meaning is stated by `WithNewlineShape`) |
| Setup.WithNewlineShape | cmd/setup.go:136-138 | the working content extends the original by at most one character and ends in a newline; it equals the original exactly when that already ends in one |
| Setup.NewlineKeepsMarker | cmd/setup.go:136-139 | appending the newline neither creates nor removes an occurrence of ".deck" |
| Setup.GitignoreRule | cmd/setup.go:135-146 | the `.gitignore` rule the method is proved against: nothing when the working content mentions ".deck", otherwise the working content followed by ".deck/\n" (its meaning is stated by `GitignoreOutcome` and `GitignoreIdempotent`) |
| Setup.UpdateGitignore | cmd/setup.go:135-146 | the successive appends produce the content the `.gitignore` rule writes, or nothing |
| Setup.GitignoreOutcome | cmd/setup.go:139-146 | without ".deck" the new content is the original, the newline if it was missing, then ".deck/\n", so the original is a prefix of it; with ".deck" anywhere nothing is written |
| Setup.GitignoreIdempotent | cmd/setup.go:139-141 | running the rule on the content it wrote writes nothing |
| Setup.TrimLeft | cmd/setup.go:198 | a suffix of the input that starts with a non-space; every removed character is white space |
| Setup.TrimRight | cmd/setup.go:198 | a prefix of the input that ends with a non-space; every removed character is white space |
| Setup.IsSpace | cmd/setup.go:198 | `unicode.IsSpace`: the Latin-1 white space (tab, newline, vertical tab, form feed, carriage return, space, U+0085, U+00A0) and the other Unicode `White_Space` characters; used by `TrimLeft` and `TrimRight` |
| Setup.TrimSpace | cmd/setup.go:198 | `strings.TrimSpace`: no longer than the input, neither starts nor ends with white space, and empty exactly when the input is all white space (`TrimSpaceInfix` adds that it is the input with only its leading and trailing white space removed) |
| Setup.TrimSpaceInfix | cmd/setup.go:198 | the trimmed answer is the slice of the input that starts right after its leading white space (`InfixAt`), and every character outside that slice is white space: only leading and trailing white space is removed |
| Setup.ToLower | cmd/setup.go:198 | same length, each character lower-cased on its own |
| Setup.LowerIsY | cmd/setup.go:198-199 | a string lower-cases to "y" exactly when it is "y" or "Y" |
| Setup.LowerIsYes | cmd/setup.go:198-199 | a string lower-cases to "yes" exactly when it is "yes" in any mix of case |
| Setup.Confirmed | cmd/setup.go:193-199 | a read error declines; otherwise the answer, trimmed and lower-cased, is "y" or "yes" (its meaning is stated by `ConfirmedAnswers`) |
| Setup.ConfirmedAnswers | cmd/setup.go:193-199 | the answer is accepted exactly when it was read and, trimmed of white space, is "y" or "yes" in any mix of case; a read error declines |

## Left out

- File and YAML I/O. Reading and parsing `deck.yaml` is not modelled; the model starts from the parsed value. Also left out: the `embed.FS` directory listing and file reads, each modelled as an `Entry` carrying the record its file parses to (or `None`); `CreateDeckYAML`; `DeckYAMLExists`; and the `.gitignore` `os.Stat`, read and write. `yaml.Unmarshal` is a library this model cannot see.
- The process-wide `versionCache` and its `init`. The catalog is passed as a value, so its construction by `LoadAllVersions` and its use by the lookups are separate.
- Go's map iteration order. `GetSupportedVersions` and `ListVersionsByMajorMinor` pick keys in an arbitrary order (`:|`). Their results are stated as sets: each key once, in some order. The unsupported-version message is stated for some enumeration of the keys.
- Magento.GetLatestVersion: the result is greatest under string order (code-point order, which matches Go's byte order on UTF-8). This is not semantic-version order. The comment at internal/magento/versions.go:156 assumes the file names are sorted, but the loop at lines 157-162 takes the string maximum whatever the order.
- `Configuration` map values (`interface{}`). They are the opaque `ConfigValue`; `Nil` stands for Go's nil, which a YAML `null` also decodes to.
- The six structs with a version and a configuration map (`ServiceConfig`, `NginxConfig`, `MariaDBConfig`, `OpenSearchConfig`, `RedisConfig` and `RabbitMQConfig`) share one datatype `ServiceConfig`. Their `GetVersion` and `GetConfigValue` methods are one function each.
- Nil versus empty slices and maps. They are not distinguished, because every reader in the core treats them alike.
- Setup.ToLower: only ASCII letters are lowered. Go's `strings.ToLower` also lowers other letters. Only U+0130 and U+212A lower to ASCII letters ('i' and 'k'), so which answers are accepted is unaffected; the lowered string itself can differ.
- GoStrings.Index: indices count characters, not UTF-8 bytes. The core only slices at these indices or compares them with 0, so no outcome changes.
- The `.gitignore` content is taken as decoded text, a string of characters, while the code converts the file's bytes with `string(content)` and those bytes need not be valid UTF-8. The rule only tests the last byte for a newline and looks for the ASCII ".deck", so no outcome changes for text input.
- The `cfg.SwoolePort` references in `cmd/setup.go` name a field that `DeckConfig` does not have, so they are not modelled.
- The rest of `runSetup`, `start`, `stop`, `bin/magento`, the cobra wiring and `main.go`: process invocation, printing and prompting.
- `internal/docker/templates.go` and `internal/traefik/traefik.go`: template execution, file writes and external commands.
