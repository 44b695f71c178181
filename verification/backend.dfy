/** `extract_backend_port` and `choose_backend_host`: where a service can be
    reached from inside the Docker network. */
module Backend {
  import opened Options
  import opened Text
  import opened Dicts
  import opened Compose

  const PortKeyPrefix := "traefik.http.services."
  const PortKeySuffix := ".loadbalancer.server.port"

  /** `LB_PORT_RE.match(k)` for the pattern
      `^traefik\.http\.services\.[^.]+\.loadbalancer\.server\.port$`:
      the prefix, a non-empty service segment without dots, the suffix, and
      then the end of the key or a final newline (which `$` also accepts). */
  predicate IsPortKey(k: string)
  {
    var body := if EndsWith(k, "\n") then k[..|k| - 1] else k;
    && |body| > |PortKeyPrefix| + |PortKeySuffix|
    && body[..|PortKeyPrefix|] == PortKeyPrefix
    && EndsWith(body, PortKeySuffix)
    && '.' !in body[|PortKeyPrefix|..|body| - |PortKeySuffix|]
  }

  /** The key made of the prefix, a service segment, the suffix and, when
      asked for, a final newline. */
  function PortKey(segment: string, newline: bool): string
  {
    PortKeyPrefix + segment + PortKeySuffix + (if newline then "\n" else "")
  }

  /** Which keys are port keys: the segment must be non-empty and free of
      dots, and at most one final newline may follow the suffix. */
  lemma PortKeyOf(segment: string, newline: bool)
    ensures IsPortKey(PortKey(segment, newline)) <==> segment != [] && '.' !in segment
  {
    var body := PortKeyPrefix + segment + PortKeySuffix;
    var k := PortKey(segment, newline);
    if newline {
      assert EndsWith(k, "\n") && k[..|k| - 1] == body;
    } else {
      assert k == body;
      assert body[|body| - 1] == 't';
    }
    assert body[..|PortKeyPrefix|] == PortKeyPrefix;
    assert body[|body| - |PortKeySuffix|..] == PortKeySuffix;
    assert body[|PortKeyPrefix|..|body| - |PortKeySuffix|] == segment;
  }

  /** Conversely, every port key has that form. */
  lemma PortKeyForm(k: string)
    requires IsPortKey(k)
    ensures exists segment: string, newline: bool ::
      segment != [] && '.' !in segment && k == PortKey(segment, newline)
  {
    var newline := EndsWith(k, "\n");
    var body := if newline then k[..|k| - 1] else k;
    var segment := body[|PortKeyPrefix|..|body| - |PortKeySuffix|];
    assert body == body[..|PortKeyPrefix|] + segment + body[|body| - |PortKeySuffix|..];
    if newline {
      assert k == body + "\n";
    }
    assert k == PortKey(segment, newline);
  }

  /** The port one label gives: a port key whose stripped value `int()`
      accepts. */
  function PortOf(entry: (string, string)): Option<int>
  {
    if IsPortKey(entry.0) then ParseInt(Trim(entry.1)) else None
  }

  /** What `extract_backend_port(labels)` returns: the port of the first
      label, in dict order, that gives one. */
  function FirstPort(labels: Dict): Option<int>
  {
    if labels == [] then None
    else if PortOf(labels[0]).Some? then PortOf(labels[0])
    else FirstPort(labels[1..])
  }

  /** `extract_backend_port(labels)`: the labels are tried in order and the
      first that parses is returned; a value `int()` rejects is skipped. */
  method ExtractBackendPort(labels: Dict) returns (port: Option<int>)
    ensures port == FirstPort(labels)
  {
    for i := 0 to |labels|
      invariant FirstPort(labels) == FirstPort(labels[i..])
    {
      assert labels[i..][1..] == labels[i + 1..];
      var (k, v) := labels[i];
      if IsPortKey(k) {
        var parsed := ParseInt(Trim(v));
        if parsed.Some? {
          return parsed;
        }
      }
    }
    return None;
  }

  /** The port found is the one of the first label that gives a port. */
  lemma {:induction false} FirstPortAt(labels: Dict, i: nat)
    requires i < |labels| && PortOf(labels[i]).Some?
    requires forall j :: 0 <= j < i ==> PortOf(labels[j]).None?
    ensures FirstPort(labels) == PortOf(labels[i])
  {
    if i > 0 {
      var rest := labels[1..];
      assert forall j :: 0 <= j < i - 1 ==> PortOf(rest[j]).None? by {
        forall j | 0 <= j < i - 1 ensures PortOf(rest[j]).None? {
          assert rest[j] == labels[j + 1];
        }
      }
      FirstPortAt(rest, i - 1);
      assert PortOf(labels[0]).None?;
    }
  }

  /** No port is found exactly when no label gives one. */
  lemma {:induction false} FirstPortNone(labels: Dict)
    ensures FirstPort(labels).None? <==> forall j :: 0 <= j < |labels| ==> PortOf(labels[j]).None?
  {
    if labels != [] {
      FirstPortNone(labels[1..]);
      assert forall j :: 1 <= j < |labels| ==> labels[j] == labels[1..][j - 1];
    }
  }

  /** `choose_backend_host(svc, name)`: the stripped `container_name` when it
      is a string that is not blank, the service name otherwise. */
  function ChooseBackendHost(containerName: Value, serviceName: string): string
  {
    if containerName.Str? && Trim(containerName.s) != "" then Trim(containerName.s) else serviceName
  }

  /** A container name, with any whitespace around it, wins over the service
      name. */
  lemma ContainerNameWins(pre: string, name: string, post: string, serviceName: string)
    requires AllSpace(pre) && AllSpace(post) && IsTrimmed(name) && name != []
    ensures ChooseBackendHost(Str(pre + name + post), serviceName) == name
  {
    TrimOfPadded(pre, name, post);
  }

  /** Without a usable container name the service name is used. */
  lemma ServiceNameFallback(containerName: Value, serviceName: string)
    requires !containerName.Str? || AllSpace(containerName.s)
    ensures ChooseBackendHost(containerName, serviceName) == serviceName
  {
  }
}
