/** The per-service part of `discover_targets`: from one Compose service to
    the public and backend monitors it asks for, each a name and a URL. */
module Targets {
  import opened Options
  import opened Text
  import opened Ordering
  import opened Dicts
  import opened Compose
  import opened Labels
  import opened Rules
  import opened Backend

  /** The words that switch an option on, after lower-casing. */
  const EnabledWords: set<string> := {"true", "1", "yes", "on"}

  // ------------------------------------------------------------- switches

  /** `env_bool(name, default)`, given what `os.getenv(name)` returned: the
      value is stripped and lower-cased before it is compared. */
  function EnvBool(value: Option<string>, default: bool): bool
  {
    match value
    case None => default
    case Some(v) => Lower(Trim(v)) in EnabledWords
  }

  /** A set variable is on exactly when it holds one of the words, in any
      letter case, with any whitespace around it. */
  lemma EnvBoolPadded(pre: string, word: string, post: string, default: bool)
    requires AllSpace(pre) && AllSpace(post) && IsTrimmed(word)
    ensures EnvBool(Some(pre + word + post), default) <==> Lower(word) in EnabledWords
  {
    TrimOfPadded(pre, word, post);
  }

  /** Whether the `traefik.enable` label switches Traefik on: a missing label
      counts as `false`; the value is lower-cased but, unlike `env_bool`, not
      stripped. */
  function TraefikEnabled(labels: Dict): bool
  {
    Lower(Get(labels, "traefik.enable").GetOr("false")) in EnabledWords
  }

  /** `v` spells `w` letter by letter, each lower-case letter of `w` written
      in either case. */
  predicate SpellsIgnoringCase(v: string, w: string)
  {
    && |v| == |w|
    && forall i :: 0 <= i < |v| ==> v[i] == w[i] || ('a' <= w[i] <= 'z' && v[i] as int == w[i] as int - 32)
  }

  /** A present label enables Traefik exactly when its value, as written,
      spells one of the switch words in some mix of letter cases. */
  lemma EnableValue(labels: Dict, v: string)
    requires Get(labels, "traefik.enable") == Some(v)
    ensures TraefikEnabled(labels) <==> exists w :: w in EnabledWords && SpellsIgnoringCase(v, w)
  {
    forall w | w in EnabledWords
      ensures SpellsIgnoringCase(v, w) <==> Lower(v) == w
    {
      LowerMatches(v, w);
    }
  }

  /** Against a word without capitals, lowering `v` gives the word exactly
      when `v` spells it in some mix of letter cases. */
  lemma LowerMatches(v: string, w: string)
    requires forall i :: 0 <= i < |w| ==> !('A' <= w[i] <= 'Z')
    ensures SpellsIgnoringCase(v, w) <==> Lower(v) == w
  {
    var l := Lower(v);
    if SpellsIgnoringCase(v, w) {
      forall i | 0 <= i < |w| ensures l[i] == w[i] {
      }
    }
    if l == w {
      forall i | 0 <= i < |v| ensures v[i] == w[i] || ('a' <= w[i] <= 'z' && v[i] as int == w[i] as int - 32) {
        assert w[i] == LowerChar(v[i]);
      }
    }
  }

  /** A service without the label is not enabled. */
  lemma EnableMissing(labels: Dict)
    requires "traefik.enable" !in Keys(labels)
    ensures !TraefikEnabled(labels)
  {
    assert |Lower("false")| == 5;
  }

  /** No switch word starts with whitespace. */
  lemma SpaceHeadNotEnabled(v: string)
    requires v != [] && IsSpace(v[0])
    ensures v !in EnabledWords
  {
  }

  /** A switch word with whitespace in front, such as ` true`, does not
      enable Traefik, although `EnvBoolPadded` shows the same text switching
      an environment option on. */
  lemma EnableNotStripped(pre: string, word: string)
    requires pre != [] && AllSpace(pre)
    ensures !TraefikEnabled([("traefik.enable", pre + word)])
  {
    var v := pre + word;
    assert Get([("traefik.enable", v)], "traefik.enable") == Some(v);
    assert IsSpace(Lower(v)[0]) by {
      assert v[0] == pre[0];
    }
    SpaceHeadNotEnabled(Lower(v));
  }

  // ------------------------------------------------------------ public URLs

  /** `labels.get("homepage.name", svc_name)`. */
  function DisplayName(labels: Dict, serviceName: string): string
  {
    Get(labels, "homepage.name").GetOr(serviceName)
  }

  /** The URL a non-blank `homepage.href` gives: stripped, then expanded. */
  function HrefUrl(labels: Dict, domain: string): Option<string>
  {
    match Get(labels, "homepage.href")
    case Some(h) => if Trim(h) != "" then Some(ExpandDomain(Str(Trim(h)), domain)) else None
    case None => None
  }

  /** The keys that end in `.rule`, in dict order. */
  function RuleKeys(keys: seq<string>): (r: seq<string>)
    ensures forall k :: k in r <==> k in keys && EndsWith(k, ".rule")
  {
    if keys == [] then []
    else (if EndsWith(keys[0], ".rule") then [keys[0]] else []) + RuleKeys(keys[1..])
  }

  /** `sorted(rule_keys)`; the keys of a dict are distinct, so this is the
      sorted, duplicate-free sequence of them. */
  function SortedRuleKeys(labels: Dict): seq<string>
  {
    SortDedup(RuleKeys(Keys(labels)), StrLess)
  }

  /** The URLs of the rule stored under key `k`. */
  function LabelRuleUrls(labels: Dict, k: string, domain: string): seq<string>
  {
    RuleUrls(Str(Get(labels, k).GetOr("")), domain)
  }

  /** `LabelRuleUrls` for one service and domain, as a function of the key. */
  function RuleUrlsOf(labels: Dict, domain: string): string -> seq<string>
  {
    k => LabelRuleUrls(labels, k, domain)
  }

  /** The URLs `urls` gives for the first key of `keys` for which it gives
      any. */
  function FirstNonEmpty(keys: seq<string>, urls: string -> seq<string>): seq<string>
  {
    if keys == [] then []
    else if urls(keys[0]) != [] then urls(keys[0])
    else FirstNonEmpty(keys[1..], urls)
  }

  /** The public URLs of a service: its `homepage.href` when that is set,
      otherwise, when Traefik is enabled, those of the first rule in key
      order that names a host. */
  function PublicUrls(labels: Dict, domain: string): seq<string>
  {
    match HrefUrl(labels, domain)
    case Some(u) => [u]
    case None => if TraefikEnabled(labels) then FirstNonEmpty(SortedRuleKeys(labels), RuleUrlsOf(labels, domain)) else []
  }

  /** The public-target block of `discover_targets`: the sorted rule keys are
      tried in turn until one gives URLs. */
  method SelectPublicUrls(labels: Dict, domain: string) returns (urls: seq<string>)
    ensures urls == PublicUrls(labels, domain)
  {
    var href := Get(labels, "homepage.href");
    if href.Some? && Trim(href.value) != "" {
      return [ExpandDomain(Str(Trim(href.value)), domain)];
    }
    if !TraefikEnabled(labels) {
      return [];
    }
    var keys := SortedRuleKeys(labels);
    ghost var rulesOf := RuleUrlsOf(labels, domain);
    for i := 0 to |keys|
      invariant FirstNonEmpty(keys, rulesOf) == FirstNonEmpty(keys[i..], rulesOf)
    {
      assert keys[i..][1..] == keys[i + 1..];
      var found := ExtractPublicUrls(Str(Get(labels, keys[i]).GetOr("")), domain);
      assert found == rulesOf(keys[i]);
      if found != [] {
        return found;
      }
    }
    return [];
  }

  /** The first key that gives URLs decides. */
  lemma {:induction false} FirstNonEmptyAt(keys: seq<string>, urls: string -> seq<string>, i: nat)
    requires i < |keys| && urls(keys[i]) != []
    requires forall j :: 0 <= j < i ==> urls(keys[j]) == []
    ensures FirstNonEmpty(keys, urls) == urls(keys[i])
  {
    if i > 0 {
      FirstNonEmptyAt(keys[1..], urls, i - 1);
    }
  }

  /** When no key gives URLs there are none. */
  lemma {:induction false} FirstNonEmptyNone(keys: seq<string>, urls: string -> seq<string>)
    requires forall k :: k in keys ==> urls(k) == []
    ensures FirstNonEmpty(keys, urls) == []
  {
    if keys != [] {
      FirstNonEmptyNone(keys[1..], urls);
    }
  }

  /** A `.rule` label of the service's labels. */
  predicate IsRuleKey(labels: Dict, k: string)
  {
    k in Keys(labels) && EndsWith(k, ".rule")
  }

  /** Without `homepage.href`, an enabled service takes its public URLs from
      the rule under the least `.rule` key, in string order, among those whose
      rule names a host. */
  lemma RulePriority(labels: Dict, k: string, domain: string)
    requires HrefUrl(labels, domain).None? && TraefikEnabled(labels)
    requires IsRuleKey(labels, k) && LabelRuleUrls(labels, k, domain) != []
    requires forall k' :: IsRuleKey(labels, k') && StrLess(k', k) ==> LabelRuleUrls(labels, k', domain) == []
    ensures PublicUrls(labels, domain) == LabelRuleUrls(labels, k, domain)
  {
    var keys := SortedRuleKeys(labels);
    StrLessOrder();
    SortDedupSorted(RuleKeys(Keys(labels)), StrLess);
    assert k in keys;
    var i :| 0 <= i < |keys| && keys[i] == k;
    forall j | 0 <= j < i ensures RuleUrlsOf(labels, domain)(keys[j]) == [] {
      assert keys[j] in keys;
      assert StrLess(keys[j], keys[i]);
    }
    FirstNonEmptyAt(keys, RuleUrlsOf(labels, domain), i);
  }

  /** Without `homepage.href`, a service none of whose rules names a host has
      no public URL. */
  lemma NoRuleHost(labels: Dict, domain: string)
    requires HrefUrl(labels, domain).None?
    requires forall k :: IsRuleKey(labels, k) ==> LabelRuleUrls(labels, k, domain) == []
    ensures PublicUrls(labels, domain) == []
  {
    FirstNonEmptyNone(SortedRuleKeys(labels), RuleUrlsOf(labels, domain));
  }

  // ------------------------------------------------------------ monitor names

  /** The name of one of several public monitors: the URL without its
      `https://` is added in parentheses. */
  function PublicName(display: string, u: string): string
  {
    display + " (public) (" + Replace(u, "https://", "") + ")"
  }

  function MultiEntries(display: string, urls: seq<string>): seq<(string, string)>
  {
    if urls == [] then []
    else MultiEntries(display, urls[..|urls| - 1]) + [(PublicName(display, urls[|urls| - 1]), urls[|urls| - 1])]
  }

  /** The public monitors for a list of URLs: a single URL is named
      `<display> (public)`, several are told apart by their hosts. */
  function PublicEntries(display: string, urls: seq<string>): seq<(string, string)>
  {
    if |urls| == 1 then [(display + " (public)", urls[0])] else MultiEntries(display, urls)
  }

  /** For an `https` URL whose host does not itself contain `https://`, the
      name shows exactly that host. */
  lemma PublicNameOfUrl(display: string, u: string)
    requires IsHttpsUrl(u) && !Contains(u[8..], "https://")
    ensures PublicName(display, u) == display + " (public) (" + u[8..] + ")"
  {
    assert u[..8] == "https://";
    ReplaceAbsent(u[8..], "https://", "");
  }

  /** Such URLs get distinct names. */
  lemma PublicNamesDistinct(display: string, u: string, v: string)
    requires IsHttpsUrl(u) && !Contains(u[8..], "https://")
    requires IsHttpsUrl(v) && !Contains(v[8..], "https://")
    requires u != v
    ensures PublicName(display, u) != PublicName(display, v)
  {
    PublicNameOfUrl(display, u);
    PublicNameOfUrl(display, v);
    var head := display + " (public) (";
    var nu, nv := PublicName(display, u), PublicName(display, v);
    var hu, hv := u[8..], v[8..];
    assert nu == head + hu + ")" && nv == head + hv + ")";
    assert nu[|head|..|nu| - 1] == hu;
    assert nv[|head|..|nv| - 1] == hv;
    assert u == u[..8] + hu && v == v[..8] + hv;
  }

  /** The last URL given a name is the one that name keeps. */
  lemma {:induction false} MultiEntriesLast(display: string, urls: seq<string>, i: nat)
    requires i < |urls|
    requires forall j :: i < j < |urls| ==> PublicName(display, urls[j]) != PublicName(display, urls[i])
    ensures LastValue(MultiEntries(display, urls), PublicName(display, urls[i])) == Some(urls[i])
  {
    if i < |urls| - 1 {
      MultiEntriesLast(display, urls[..|urls| - 1], i);
    }
  }

  /** A single URL becomes the one monitor `<display> (public)`. */
  lemma OneUrlMonitored(d: Dict, display: string, u: string)
    ensures Get(PutAll(d, PublicEntries(display, [u])), display + " (public)") == Some(u)
  {
    assert PublicEntries(display, [u])[..0] == [];
  }

  /** When names are distinct, every URL of a multi-URL service becomes a
      monitor of its own. */
  lemma EveryUrlMonitored(d: Dict, display: string, urls: seq<string>, i: nat)
    requires i < |urls| && |urls| != 1
    requires forall j, k :: 0 <= j < k < |urls| ==> PublicName(display, urls[j]) != PublicName(display, urls[k])
    ensures Get(PutAll(d, PublicEntries(display, urls)), PublicName(display, urls[i])) == Some(urls[i])
  {
    MultiEntriesLast(display, urls, i);
    PutAllGet(d, MultiEntries(display, urls), PublicName(display, urls[i]));
  }

  // ------------------------------------------------------------- one service

  /** The public monitors `discover_targets` records for one service. */
  function ServicePublic(svc: Service, domain: string): seq<(string, string)>
  {
    match svc.body
    case NotAService => []
    case ServiceMap(raw, _) =>
      var labels := LabelsOf(raw);
      PublicEntries(DisplayName(labels, svc.name), PublicUrls(labels, domain))
  }

  /** The URL of a backend monitor: plain `http` to the host and port. */
  function BackendUrl(host: string, port: int): string
  {
    "http://" + host + ":" + IntToString(port)
  }

  /** The host and the port can be read back from a backend URL. */
  lemma BackendUrlParts(host: string, port: int)
    ensures var u := BackendUrl(host, port);
      && |u| > 8 + |host|
      && u[..7] == "http://" && u[7..7 + |host|] == host && u[7 + |host|] == ':'
      && ParseInt(u[8 + |host|..]) == Some(port)
  {
    var u := BackendUrl(host, port);
    var digits := IntToString(port);
    ParseIntToString(port);
    assert u == "http://" + host + ":" + digits;
    assert u[8 + |host|..] == digits;
  }

  /** The backend monitor of a service with these labels: only when Traefik
      is enabled and a port label gives a non-zero port. */
  function BackendEntries(labels: Dict, containerName: Value, serviceName: string): seq<(string, string)>
  {
    if !TraefikEnabled(labels) then []
    else
      match FirstPort(labels)
      case None => []
      case Some(p) =>
        if p == 0 then []
        else [(DisplayName(labels, serviceName) + " (backend)", BackendUrl(ChooseBackendHost(containerName, serviceName), p))]
  }

  /** The backend monitors `discover_targets` records for one service. */
  function ServiceBackend(svc: Service): seq<(string, string)>
  {
    match svc.body
    case NotAService => []
    case ServiceMap(raw, containerName) => BackendEntries(LabelsOf(raw), containerName, svc.name)
  }

  /** The body of the service loop of `discover_targets`: the service's
      monitors are assigned into the two dicts. */
  method AddServiceTargets(public: Dict, backend: Dict, svc: Service, domain: string)
    returns (public': Dict, backend': Dict)
    ensures public' == PutAll(public, ServicePublic(svc, domain))
    ensures backend' == PutAll(backend, ServiceBackend(svc))
  {
    if svc.body.NotAService? {
      return public, backend;
    }
    var labels := LabelsToDict(svc.body.labels);
    var display := DisplayName(labels, svc.name);
    var urls := SelectPublicUrls(labels, domain);
    public' := AddPublicTargets(public, display, urls);
    backend' := AddBackendTarget(backend, labels, svc.body.containerName, svc.name);
  }

  /** The naming step: one URL is recorded as `<display> (public)`, several
      each under a name that shows its host. */
  method AddPublicTargets(public: Dict, display: string, urls: seq<string>) returns (public': Dict)
    ensures public' == PutAll(public, PublicEntries(display, urls))
  {
    if |urls| == 1 {
      return Put(public, display + " (public)", urls[0]);
    }
    public' := public;
    for j := 0 to |urls|
      invariant public' == PutAll(public, MultiEntries(display, urls[..j]))
    {
      assert urls[..j + 1][..j] == urls[..j];
      var u := urls[j];
      var host := Replace(u, "https://", "");
      public' := Put(public', display + " (public) (" + host + ")", u);
    }
    assert urls[..|urls|] == urls;
  }

  /** The backend step: with Traefik enabled and a truthy port, the monitor
      `<display> (backend)` is recorded. */
  method AddBackendTarget(backend: Dict, labels: Dict, containerName: Value, serviceName: string)
    returns (backend': Dict)
    ensures backend' == PutAll(backend, BackendEntries(labels, containerName, serviceName))
  {
    backend' := backend;
    if TraefikEnabled(labels) {
      var port := ExtractBackendPort(labels);
      if port.Some? && port.value != 0 {
        var host := ChooseBackendHost(containerName, serviceName);
        var name := DisplayName(labels, serviceName) + " (backend)";
        backend' := Put(backend', name, "http://" + host + ":" + IntToString(port.value));
      }
    }
  }

  /** A non-blank `homepage.href` gives the one public monitor
      `<display> (public)`, whether Traefik is enabled or not and whatever the
      rules say. */
  lemma HrefWins(svc: Service, h: string, domain: string)
    requires svc.body.ServiceMap?
    requires Get(LabelsOf(svc.body.labels), "homepage.href") == Some(h) && !AllSpace(h)
    ensures ServicePublic(svc, domain)
         == [(DisplayName(LabelsOf(svc.body.labels), svc.name) + " (public)", ExpandDomain(Str(Trim(h)), domain))]
  {
    TrimBlank(h);
  }

  /** Without `homepage.href`, a service that does not enable Traefik is not
      monitored at all. */
  lemma DisabledIgnored(svc: Service, domain: string)
    requires svc.body.ServiceMap?
    requires !TraefikEnabled(LabelsOf(svc.body.labels))
    requires HrefUrl(LabelsOf(svc.body.labels), domain).None?
    ensures ServicePublic(svc, domain) == [] && ServiceBackend(svc) == []
  {
  }

  /** A service has a backend monitor exactly when it enables Traefik and a
      port label gives a port other than 0; the monitor is then
      `<display> (backend)` with the URL of the chosen host and that port. */
  lemma BackendGate(svc: Service)
    ensures ServiceBackend(svc) != [] <==>
      && svc.body.ServiceMap?
      && TraefikEnabled(LabelsOf(svc.body.labels))
      && FirstPort(LabelsOf(svc.body.labels)).Some?
      && FirstPort(LabelsOf(svc.body.labels)).value != 0
    ensures ServiceBackend(svc) != [] ==>
      && svc.body.ServiceMap?
      && var labels := LabelsOf(svc.body.labels);
         ServiceBackend(svc)
         == [(DisplayName(labels, svc.name) + " (backend)",
              BackendUrl(ChooseBackendHost(svc.body.containerName, svc.name), FirstPort(labels).value))]
  {
  }
}
