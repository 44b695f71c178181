# Uptime Kuma sync: target discovery

`docker/stacks/uptime/sync.py` keeps an Uptime Kuma instance in step with a
tree of Docker Compose files. On each pass it reads every Compose file,
looks at the labels of every service and derives two dicts from monitor
name to URL:

- public targets: the stripped, domain-expanded value of a `homepage.href`
  label, or else `https://` URLs of the hosts named by the `Host(...)`
  matchers of the service's Traefik router rules;
- backend targets: `http://<container or service>:<port>`, where the port
  comes from a Traefik load-balancer port label.

`main` then merges the two dicts; on an equal name the backend entry wins.

This project models that target-discovery logic in Dafny and proves what it
promises. Each part of the source has its own module:

- `Text`: the Python string operations the code relies on. These are
  `strip()` (with Python's whitespace set), `lower()`, `replace()`, `in`
  and `split("=", 1)` (the first index of `=`), `endswith()`, `int()` on a
  stripped decimal literal, and `str()` of an integer.
- `Ordering`: `sorted(set(...))` for `pathlib` paths, which compare part by
  part, and `sorted(...)` for the `.rule` keys, which are strings compared by
  code point; dict keys are distinct, so the duplicate-free sort `SortDedup`
  models that sort too.
- `Dicts`: a Python `dict` as an insertion-ordered sequence of pairs with
  distinct keys. Assigning to a present key keeps its position; a new key
  goes to the end.
- `Compose`: the parsed Compose documents, reduced to what discovery
  inspects.
- `Labels`: `labels_to_dict`.
- `Rules`: `expand_domain` and `extract_public_urls_from_rule`, including the
  `findall` semantics of `HOST_BLOCK_RE` and `BACKTICK_RE`.
- `Backend`: `extract_backend_port` (with `LB_PORT_RE`) and
  `choose_backend_host`.
- `Targets`: `env_bool` and the per-service body of `discover_targets`. That
  body covers the enable check, public URL priority, naming, and the backend
  target.
- `Discovery`: `resolve_includes`, the include collection, the scan set, and
  the file and service loops of `discover_targets`. It also holds the merge
  in `main`.

Every loop of the modelled core is a method proved equal to a function that
specifies it. The properties are lemmas about those functions.

Three things are parameters of the model instead of being computed:

- `load` reads and parses a file, or yields `NoDocument`;
- `resolve` joins an include entry to the including file's directory and
  resolves the result;
- `isFile` says whether a path exists and is a file.

The list of YAML files found under the root is also an input.

Three behaviours of the code worth noting:

- The `traefik.enable` value is lower-cased but not stripped (line 160), so
  ` true` does not enable Traefik (`Targets.EnableNotStripped`). By contrast,
  `env_bool` strips its value.
- A port of `0` gives no backend target (`if port:`, line 189).
- The multi-URL monitor name removes every `https://` from the URL
  (`replace`, line 182), not just the leading one. Distinct hosts are
  therefore only proved to get distinct names when they do not themselves
  contain `https://`.

## Model

| member | source | states |
|---|---|---|
| Text.Trim | docker/stacks/uptime/sync.py:32 | `strip()` leaves no whitespace at either end and never lengthens the string |
| Text.TrimBlank | docker/stacks/uptime/sync.py:116 | a string is blank (all whitespace) exactly when `strip()` returns the empty string |
| Text.TrimOfPadded | docker/stacks/uptime/sync.py:32 | `strip()` of any whitespace padding around a trimmed core returns that core |
| Text.Lower | docker/stacks/uptime/sync.py:160 | lower-casing keeps the length and lowers each character on its own |
| Text.IndexOf | docker/stacks/uptime/sync.py:31 | the index found holds the character and no earlier index does; none is found only when the character is absent |
| Text.Replace | docker/stacks/uptime/sync.py:41 | Python's `s.replace(pat, rep)`: occurrences of `pat` replaced left to right without overlap; characterised by `ReplaceSkipHead`, `ReplaceAtHead` and `ReplaceFirst` (what is copied and what is substituted), and by `ReplaceAbsent`, `ReplaceLeavesNo` and `ReplaceKeepsPrefix` |
| Text.ReplaceSkipHead | docker/stacks/uptime/sync.py:41 | text holding no first character of the pattern is copied unchanged, and replacement continues after it |
| Text.ReplaceAtHead | docker/stacks/uptime/sync.py:41 | an occurrence of the pattern at the start becomes the replacement, and replacement continues after it |
| Text.ReplaceFirst | docker/stacks/uptime/sync.py:41 | in `pre + pat + post`, with no first character of `pat` in `pre`, `pre` is kept, `pat` becomes the replacement and `post` is replaced in turn |
| Text.ReplaceAbsent | docker/stacks/uptime/sync.py:41 | `replace` changes nothing when the pattern does not occur |
| Text.ReplaceLeavesNo | docker/stacks/uptime/sync.py:41 | when the replacement is non-empty and shares no character with a string `q`, `replace` leaves no occurrence of `q`, provided `q` is the pattern replaced or did not occur before |
| Text.ParseInt | docker/stacks/uptime/sync.py:105 | `int()` accepts exactly a non-empty digit string, or a sign followed by one; the value is the decimal value of the digits, negated after `-` |
| Text.IntToString | docker/stacks/uptime/sync.py:191 | `str(n)` for any integer, a `-` before the digits of a negative one; it is never empty, and `ParseIntToString` shows `int()` reads it back as `n` |
| Text.NatToString | docker/stacks/uptime/sync.py:191 | `str()` of a natural number is a non-empty digit string without a leading zero |
| Text.ParseIntToString | docker/stacks/uptime/sync.py:191 | `int(str(n)) == n` for every integer |
| Ordering.StrLessOrder | docker/stacks/uptime/sync.py:170 | Python's string comparison is a strict total order |
| Ordering.PathLessOrder | docker/stacks/uptime/sync.py:135-137 | Python's path comparison is a strict total order |
| Ordering.SortDedup | docker/stacks/uptime/sync.py:135 | `sorted(set(xs))` holds exactly the elements of `xs` |
| Ordering.SortDedupSorted | docker/stacks/uptime/sync.py:135-137 | `sorted(set(xs))` is strictly increasing, so it holds no element twice |
| Ordering.SortedUnique | docker/stacks/uptime/sync.py:135-137 | two strictly increasing sequences with the same elements are equal |
| Dicts.Get | docker/stacks/uptime/sync.py:160-162 | `d.get(k)` is absent exactly when `k` is not a key |
| Dicts.Put | docker/stacks/uptime/sync.py:32 | after `d[k] = v`, `k` maps to `v` and every other key keeps its value |
| Dicts.PutKeys | docker/stacks/uptime/sync.py:32 | assigning to a present key keeps the key order; a new key is appended |
| Dicts.PutValid | docker/stacks/uptime/sync.py:32 | assignment never duplicates a key |
| Dicts.PutAllGet | docker/stacks/uptime/sync.py:28-33 | after a run of assignments, each key holds the value of its last assignment, or its old value if it was not assigned |
| Dicts.PutAllOfDict | docker/stacks/uptime/sync.py:26 | filling an empty dict from a dict rebuilds it in the same order |
| Dicts.PutAllFresh | docker/stacks/uptime/sync.py:231-232 | assigning only new keys appends them in order |
| Dicts.UpdateGet | docker/stacks/uptime/sync.py:231-232 | after `d.update(e)`, the keys of `e` have their values from `e` and every other key keeps its value from `d` |
| Labels.SplitItem | docker/stacks/uptime/sync.py:31-32 | both halves of a split item are stripped |
| Labels.LabelsToDict | docker/stacks/uptime/sync.py:21-34 | the dict returned for each shape of `labels:`: the mapping form's entries, the list form's pairs, and the empty dict for `None` and other types |
| Labels.ListToDict | docker/stacks/uptime/sync.py:27-33 | the list form filled item by item equals the assignments of the pairs its `k=v` strings give, in list order |
| Labels.LabelsValid | docker/stacks/uptime/sync.py:21-34 | the resulting dict never has a key twice |
| Labels.SplitItemAt | docker/stacks/uptime/sync.py:31-32 | an item is split at its first `=` only, and later `=` stay in the value |
| Labels.ListDropsMalformed | docker/stacks/uptime/sync.py:29-30 | removing a non-string item, or one without `=`, does not change the result |
| Labels.ListLastWins | docker/stacks/uptime/sync.py:29-32 | for a key given by several items, the value of the last item wins |
| Labels.DictFormKeepsEntries | docker/stacks/uptime/sync.py:25-26 | the mapping form keeps every entry and its order when the rendered keys are distinct |
| Rules.ExpandDomain | docker/stacks/uptime/sync.py:36-41 | `expand_domain`: `""` for a non-string, the value itself for an empty domain, else both placeholder spellings replaced by the domain; characterised by `ExpandDomainSubstitutes` and `ExpandDomainSubstitutesShort` (each spelling becomes the domain), `ExpandDomainIdentity` and `ExpandDomainRemovesPlaceholders` |
| Rules.ExpandDomainSubstitutes | docker/stacks/uptime/sync.py:36-41 | with a non-empty domain and no other `$` around it, `pre` + `${DOMAIN}` + `post` expands to `pre` + domain + `post` |
| Rules.ExpandDomainSubstitutesShort | docker/stacks/uptime/sync.py:36-41 | with a non-empty domain and no other `$` around it, `pre` + `$DOMAIN` + `post` expands to `pre` + domain + `post` |
| Rules.ShortIsNotLong | docker/stacks/uptime/sync.py:41 | the `${DOMAIN}` pass leaves `$DOMAIN` and the text after it untouched when that text holds no `$` |
| Rules.ExpandDomainIdentity | docker/stacks/uptime/sync.py:36-41 | a non-string gives `""`; an empty domain, or a value without `$`, leaves the value unchanged |
| Rules.ExpandDomainRemovesPlaceholders | docker/stacks/uptime/sync.py:41 | with a domain that cannot spell a placeholder, no `${DOMAIN}` or `$DOMAIN` survives expansion |
| Rules.HostBlocks | docker/stacks/uptime/sync.py:9 | every block `HOST_BLOCK_RE` captures is non-empty and holds no `)` |
| Rules.BacktickTokens | docker/stacks/uptime/sync.py:10 | every token `BACKTICK_RE` captures is non-empty and holds no backtick |
| Rules.HostBlocksMatch | docker/stacks/uptime/sync.py:9 | a `Host(` block ends at the first `)`, and the scan resumes after it |
| Rules.HostBlocksSkip | docker/stacks/uptime/sync.py:9 | text without `Host(`, followed by nothing or by text that starts with `H`, contributes no block |
| Rules.BacktickMatch | docker/stacks/uptime/sync.py:10 | a token runs up to the next backtick, and the scan resumes after it |
| Rules.BacktickSkip | docker/stacks/uptime/sync.py:10 | text without backticks contributes no token |
| Rules.ExtractPublicUrls | docker/stacks/uptime/sync.py:88-98 | the nested loops return the URLs of every block, block by block; a non-string rule gives none |
| Rules.TokenUrlsOf | docker/stacks/uptime/sync.py:94-97 | the inner loop yields one URL per token whose expanded, stripped host is not blank, in token order |
| Rules.RuleUrlsHttps | docker/stacks/uptime/sync.py:95-97 | every URL returned is `https://` followed by a non-empty, stripped host |
| Rules.PlainTokenHost | docker/stacks/uptime/sync.py:95 | a stripped host without `$` is its own host for any domain |
| Rules.QuotedTokens | docker/stacks/uptime/sync.py:10 | the tokens of `` `h1`,`h2`,… `` are `h1, h2, …` in order |
| Rules.MatchersBlocks | docker/stacks/uptime/sync.py:9 | a rule of `Host(…)` matchers joined by the or-operator yields one block per matcher, in order |
| Rules.MatchersUrls | docker/stacks/uptime/sync.py:88-98 | such a rule yields the `https` URL of every host, in the order written, across matchers and within each matcher |
| Backend.IsPortKey | docker/stacks/uptime/sync.py:13 | `LB_PORT_RE.match(k)`: prefix, a non-empty dot-free service segment, suffix, then the end or a final newline; characterised in both directions by `PortKeyOf` and `PortKeyForm` |
| Backend.PortKeyOf | docker/stacks/uptime/sync.py:13 | a key of the port shape matches exactly when its service segment is non-empty and has no `.` |
| Backend.PortKeyForm | docker/stacks/uptime/sync.py:13 | every matching key has the port shape, with at most one final newline (which `$` accepts) |
| Backend.ExtractBackendPort | docker/stacks/uptime/sync.py:100-108 | the loop returns the port of the first label, in dict order, whose key matches and whose stripped value parses |
| Backend.FirstPortAt | docker/stacks/uptime/sync.py:102-107 | the port is the one of the first matching, parsing label; non-parsing matches are skipped |
| Backend.FirstPortNone | docker/stacks/uptime/sync.py:108 | no port is found exactly when no label gives one |
| Backend.ChooseBackendHost | docker/stacks/uptime/sync.py:110-118 | `choose_backend_host`: the stripped `container_name` when it is a non-blank string, else the service name; characterised by `ContainerNameWins` and `ServiceNameFallback` |
| Backend.ContainerNameWins | docker/stacks/uptime/sync.py:115-117 | a non-blank `container_name` wins, stripped of surrounding whitespace |
| Backend.ServiceNameFallback | docker/stacks/uptime/sync.py:118 | a missing, non-string or blank `container_name` gives the service name |
| Targets.EnvBool | docker/stacks/uptime/sync.py:15-19 | `env_bool`: the default when unset, else whether the stripped, lower-cased value is a switch word; characterised by `EnvBoolPadded` |
| Targets.EnvBoolPadded | docker/stacks/uptime/sync.py:15-19 | a set variable is on exactly when, stripped and lower-cased, it is a switch word |
| Targets.TraefikEnabled | docker/stacks/uptime/sync.py:160 | whether the lower-cased, unstripped `traefik.enable` value (default `"false"`) is a switch word; characterised by `EnableValue` (both directions for a present label), `EnableMissing` and `EnableNotStripped` |
| Targets.DisplayName | docker/stacks/uptime/sync.py:162 | the `homepage.name` label, else the service name; `HrefWins` and `BackendGate` show it naming the single public monitor and the backend monitor |
| Targets.EnableValue | docker/stacks/uptime/sync.py:160 | a present `traefik.enable` value enables Traefik exactly when, as written, it spells `true`, `1`, `yes` or `on` with any mix of ASCII letter cases |
| Targets.LowerMatches | docker/stacks/uptime/sync.py:160 | lower-casing a value gives a word without capitals exactly when the value spells that word in some mix of letter cases |
| Targets.EnableMissing | docker/stacks/uptime/sync.py:160 | a service without `traefik.enable` is not enabled |
| Targets.EnableNotStripped | docker/stacks/uptime/sync.py:160 | a switch word with leading whitespace does not enable Traefik |
| Targets.RuleKeys | docker/stacks/uptime/sync.py:169 | the rule keys are exactly the label keys ending in `.rule` |
| Targets.SelectPublicUrls | docker/stacks/uptime/sync.py:165-174 | the public-URL block returns `homepage.href` first; otherwise, if enabled, the URLs of the first sorted rule key that has any |
| Targets.FirstNonEmptyAt | docker/stacks/uptime/sync.py:170-174 | the first key with URLs decides, whatever follows |
| Targets.FirstNonEmptyNone | docker/stacks/uptime/sync.py:170-174 | when no key yields URLs, there are none |
| Targets.RulePriority | docker/stacks/uptime/sync.py:168-174 | without `homepage.href`, an enabled service takes the URLs of the least `.rule` key, in string order, among those that yield URLs |
| Targets.NoRuleHost | docker/stacks/uptime/sync.py:168-174 | without `homepage.href`, and with no rule naming a host, a service has no public URL |
| Targets.PublicName | docker/stacks/uptime/sync.py:182-183 | the multi-URL monitor name `<display> (public) (<url without https://>)`; characterised by `PublicNameOfUrl` and `PublicNamesDistinct` |
| Targets.PublicNameOfUrl | docker/stacks/uptime/sync.py:182-183 | a multi-URL monitor name shows the URL's host in parentheses |
| Targets.PublicNamesDistinct | docker/stacks/uptime/sync.py:181-183 | distinct `https` URLs whose hosts do not contain `https://` get distinct names |
| Targets.OneUrlMonitored | docker/stacks/uptime/sync.py:178-179 | a single URL is recorded as `<display> (public)` |
| Targets.MultiEntriesLast | docker/stacks/uptime/sync.py:181-183 | of several URLs, a name keeps the URL last assigned to it |
| Targets.EveryUrlMonitored | docker/stacks/uptime/sync.py:180-183 | with distinct names, every URL of a multi-URL service becomes its own monitor |
| Targets.BackendUrl | docker/stacks/uptime/sync.py:191 | `http://<host>:<port>`; characterised by `BackendUrlParts`, which recovers the host and the port |
| Targets.BackendUrlParts | docker/stacks/uptime/sync.py:191 | the backend URL is `http://`, the host, `:`, and digits that read back as the port |
| Targets.AddServiceTargets | docker/stacks/uptime/sync.py:153-192 | one service assigns exactly its public and backend monitors into the two dicts |
| Targets.AddPublicTargets | docker/stacks/uptime/sync.py:177-183 | the naming step assigns the specified public entries in URL order |
| Targets.AddBackendTarget | docker/stacks/uptime/sync.py:187-192 | the backend step assigns `<display> (backend)` only when Traefik is enabled and the port is non-zero |
| Targets.HrefUrl | docker/stacks/uptime/sync.py:166-167 | the stripped, domain-expanded `homepage.href` when it is not blank, else none; characterised by `HrefWins` |
| Targets.HrefWins | docker/stacks/uptime/sync.py:166-167 | a non-blank `homepage.href` gives the single monitor `<display> (public)`, with the href stripped and then expanded, whatever the enable label and the rules say |
| Targets.DisabledIgnored | docker/stacks/uptime/sync.py:168 | without `homepage.href`, a service that does not enable Traefik gets no monitor |
| Targets.BackendGate | docker/stacks/uptime/sync.py:187-192 | a service has a backend monitor exactly when it is enabled and a port label gives a non-zero port; that monitor is `<display> (backend)` with the URL of the chosen host and the first port |
| Discovery.ResolveIncludes | docker/stacks/uptime/sync.py:59-86 | the resolved includes are the string entries of an `include:` list that resolve to files, in list order; anything else gives none |
| Discovery.ItemPathsMembers | docker/stacks/uptime/sync.py:77-86 | a path is returned exactly when some string entry resolves to it and it is a file |
| Discovery.IncludedPathsMembers | docker/stacks/uptime/sync.py:65-86 | `resolve_includes` returns a path exactly when it is a file and the document is a mapping whose `include:` list has a string entry resolving to it |
| Discovery.AllIncludedMembers | docker/stacks/uptime/sync.py:128-132 | a path is collected exactly when it is a file and some file's document has a string `include:` entry that resolves to it |
| Discovery.CollectIncludes | docker/stacks/uptime/sync.py:128-132 | the includes of every document with an `include:` key are gathered, file by file |
| Discovery.ScanSet | docker/stacks/uptime/sync.py:134-137 | `sorted(set(included))` when only includes are asked for and there are some, else the sorted union of the sets of all and included paths; characterised by `ScanSetSpec` and `ScanSetUnique` |
| Discovery.ScanSetSpec | docker/stacks/uptime/sync.py:134-137 | the scan set is sorted without repeats and holds the includes alone when asked to and there are some, otherwise all files and all includes |
| Discovery.ScanSetUnique | docker/stacks/uptime/sync.py:134-137 | the scan order is fixed by the chosen paths alone |
| Discovery.ScanServices | docker/stacks/uptime/sync.py:153-192 | a document's services assign their monitors in service order |
| Discovery.ScanFiles | docker/stacks/uptime/sync.py:142-192 | the files are scanned in scan-set order, and every service of every file assigns its monitors |
| Discovery.DiscoverTargets | docker/stacks/uptime/sync.py:120-194 | the two dicts are the assignments of all scanned services applied in order, starting from empty dicts |
| Discovery.LastServiceWins | docker/stacks/uptime/sync.py:153-192 | in both the public and the backend dict, when several services produce one name the last one scanned sets its URL, and no name is held twice |
| Discovery.MergeTargets | docker/stacks/uptime/sync.py:230-232 | the merged dict has no repeated name; a name takes its backend URL when it has one, else its public URL |
| Discovery.MergeDisjoint | docker/stacks/uptime/sync.py:230-232 | with no name in common, the merge is the public dict followed by the backend dict |

## Left out

- YAML parsing (`safe_load_yaml`, lines 43-49) is a foreign library. A document arrives already parsed, through the `load` parameter. A file that fails to parse is `NoDocument`, and its warning is not modelled.
- `find_yaml_files` (lines 51-57) globs the file system. Its result is an input of `Discovery.DiscoverTargets`.
- `resolve_includes` reaches the file system through `Path.resolve()`, `exists()` and `is_file()`, which become the `resolve` and `isFile` parameters. Symlinks and path normalisation are left to them.
- All printed warnings and info lines (lines 48, 74, 85, 218-225, 234 and later) are left out.
- `main` is left out except for the merge on lines 230-232. That covers the Uptime Kuma API client, reading environment variables, the polling loop with `time.sleep`, and exception handling. `env_bool` is modelled on the value `os.getenv` returns.
- Text.ParseInt: Python's `int()` also accepts underscores between digits and non-ASCII decimal digits; the model accepts only an optional sign followed by ASCII digits.
- Text.ParseInt: from Python 3.11 on, `int()` raises `ValueError` on a literal of more than 4300 digits, so `extract_backend_port` skips such a label; the model, which does not depend on the Python version, accepts it.
- Text.Lower: only ASCII capitals are lowered. No other character lowers to a letter of `true`, `yes` or `on`, so the switch checks decide as Python does.
- Compose.RawLabels: the mapping form carries keys and values already rendered by `str()`. Service names are likewise strings as `str()` would render them; rendering other YAML scalars is not modelled.
- Rules.ExpandDomainRemovesPlaceholders: proved only for domains sharing no character with `${DOMAIN}`. Any lower-case host name qualifies. This is a sufficient condition for "the domain does not itself spell a placeholder", not the exact one.
- Targets.PublicNamesDistinct: proved only for hosts that do not themselves contain `https://`. The source removes every occurrence of `https://`, so `https://a` and `https://https://a` both get the name `… (public) (a)`.
