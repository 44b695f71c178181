/** `expand_domain` and `extract_public_urls_from_rule`: the hosts named by
    the `Host(...)` matchers of a Traefik router rule, as `https` URLs. */
module Rules {
  import opened Options
  import opened Text
  import opened Compose

  // ------------------------------------------------------------ expand_domain

  /** `expand_domain(value, domain)`: with a configured domain, every
      `${DOMAIN}` and then every `$DOMAIN` is replaced by it. */
  function ExpandDomain(value: Value, domain: string): string
  {
    if !value.Str? then ""
    else if domain == "" then value.s
    else Replace(Replace(value.s, "${DOMAIN}", domain), "$DOMAIN", domain)
  }

  /** A value with no `$` in it, or any value when no domain is configured,
      comes back unchanged; a non-string gives the empty string. */
  lemma ExpandDomainIdentity(value: Value, domain: string)
    requires value.Str? ==> domain == "" || '$' !in value.s
    ensures ExpandDomain(value, domain) == if value.Str? then value.s else ""
  {
    if value.Str? && domain != "" {
      AbsentHead(value.s, "${DOMAIN}");
      AbsentHead(value.s, "$DOMAIN");
      ReplaceAbsent(value.s, "${DOMAIN}", domain);
      ReplaceAbsent(value.s, "$DOMAIN", domain);
    }
  }

  /** `${DOMAIN}` is replaced by the domain, and the text around it is kept. */
  lemma ExpandDomainSubstitutes(pre: string, post: string, domain: string)
    requires domain != "" && '$' !in pre && '$' !in post && '$' !in domain
    ensures ExpandDomain(Str(pre + "${DOMAIN}" + post), domain) == pre + domain + post
  {
    var long := "${DOMAIN}";
    assert long[0] == '$';
    ReplaceFirst(pre, long, post, domain);
    AbsentHead(post, long);
    ReplaceAbsent(post, long, domain);
    var once := pre + domain + post;
    assert '$' !in once;
    AbsentHead(once, "$DOMAIN");
    ReplaceAbsent(once, "$DOMAIN", domain);
  }

  /** `$DOMAIN` is replaced by the domain, and the text around it is kept. */
  lemma ExpandDomainSubstitutesShort(pre: string, post: string, domain: string)
    requires domain != "" && '$' !in pre && '$' !in post && '$' !in domain
    ensures ExpandDomain(Str(pre + "$DOMAIN" + post), domain) == pre + domain + post
  {
    var long, short := "${DOMAIN}", "$DOMAIN";
    var t := short + post;
    assert pre + short + post == pre + t;
    ReplaceSkipHead(pre, t, long, domain);
    ShortIsNotLong(post, domain);
    ReplaceFirst(pre, short, post, domain);
    AbsentHead(post, short);
    ReplaceAbsent(post, short, domain);
  }

  /** The first pass leaves `$DOMAIN` alone: it does not spell `${DOMAIN}`. */
  lemma ShortIsNotLong(post: string, domain: string)
    requires '$' !in post
    ensures Replace("$DOMAIN" + post, "${DOMAIN}", domain) == "$DOMAIN" + post
  {
    var long, t := "${DOMAIN}", "$DOMAIN" + post;
    var rest := t[1..];
    assert rest == "DOMAIN" + post && '$' !in rest;
    AbsentHead(rest, long);
    ReplaceAbsent(rest, long, domain);
    if |t| >= |long| {
      assert t[..|long|][1] == 'D';
    }
    assert t == [t[0]] + rest;
  }

  /** With a domain that cannot itself spell a placeholder (no character of
      `${DOMAIN}` in it), no placeholder survives the expansion. */
  lemma ExpandDomainRemovesPlaceholders(value: string, domain: string)
    requires domain != []
    requires forall c :: c in domain ==> c !in "${DOMAIN}"
    ensures !Contains(ExpandDomain(Str(value), domain), "${DOMAIN}")
    ensures !Contains(ExpandDomain(Str(value), domain), "$DOMAIN")
  {
    var once := Replace(value, "${DOMAIN}", domain);
    ReplaceLeavesNo(value, "${DOMAIN}", domain, "${DOMAIN}");
    forall c | c in domain ensures c !in "$DOMAIN" {
      assert c !in "${DOMAIN}";
    }
    ReplaceLeavesNo(once, "$DOMAIN", domain, "$DOMAIN");
    ReplaceLeavesNo(once, "$DOMAIN", domain, "${DOMAIN}");
  }

  // ------------------------------------------------------ the rule mini-language

  /** `HOST_BLOCK_RE.findall(rule)` for the pattern `Host\(([^)]+)\)`: scanning
      from the left, a match is `Host(`, then one or more characters other
      than `)`, then the first `)`; the search resumes after it. */
  function HostBlocks(rule: string): (blocks: seq<string>)
    ensures forall b :: b in blocks ==> b != [] && ')' !in b
    decreases |rule|
  {
    if |rule| < 5 then []
    else if rule[..5] == "Host(" then
      match IndexOf(rule[5..], ')')
      case Some(j) =>
        if j > 0 then [rule[5..5 + j]] + HostBlocks(rule[5 + j + 1..]) else HostBlocks(rule[1..])
      case None => HostBlocks(rule[1..])
    else HostBlocks(rule[1..])
  }

  /** `BACKTICK_RE.findall(block)` for the pattern `` `([^`]+)` ``: a match is a
      backtick, one or more other characters, and the next backtick. */
  function BacktickTokens(block: string): (tokens: seq<string>)
    ensures forall t :: t in tokens ==> t != [] && '`' !in t
    decreases |block|
  {
    if block == [] then []
    else if block[0] == '`' then
      match IndexOf(block[1..], '`')
      case Some(j) =>
        if j > 0 then [block[1..1 + j]] + BacktickTokens(block[1 + j + 1..]) else BacktickTokens(block[1..])
      case None => BacktickTokens(block[1..])
    else BacktickTokens(block[1..])
  }

  /** A `Host(...)` block holds everything up to its first `)`. */
  lemma HostBlocksMatch(b: string, rest: string)
    requires b != [] && ')' !in b
    ensures HostBlocks("Host(" + b + ")" + rest) == [b] + HostBlocks(rest)
  {
    var rule := "Host(" + b + ")" + rest;
    assert rule[..5] == "Host(";
    var s := rule[5..];
    assert s == b + ")" + rest;
    assert s[|b|] == ')' && s[..|b|] == b;
    IndexOfAt(s, ')', |b|);
    var j := |b|;
    assert rule[5..5 + j] == b;
    assert rule[5 + j + 1..] == rest;
  }

  /** No matcher starts at the first position: the scan moves on by one. */
  lemma HostBlocksNoMatch(rule: string)
    requires |rule| >= 5 && rule[..5] != "Host("
    ensures HostBlocks(rule) == HostBlocks(rule[1..])
  {
  }

  /** `Host(` cannot start inside `x` when `x` holds no `Host(` and what
      follows is empty or starts with `H`. */
  lemma NoMatchAcross(x: string, y: string)
    requires x != [] && !Contains(x, "Host(")
    requires y == [] || y[0] == 'H'
    ensures |x + y| < 5 || (x + y)[..5] != "Host("
  {
    var rule := x + y;
    if |rule| >= 5 {
      if |x| >= 5 {
        assert rule[..5] == x[..5];
        assert !StartsAt(x, 0, "Host(");
      } else {
        assert rule[..5][|x|] == y[0];
      }
    }
  }

  /** Text without `Host(` in it contributes nothing, as long as it does not
      run into the start of a matcher (the text after it is empty or starts
      with `H`). */
  lemma {:induction false} HostBlocksSkip(x: string, y: string)
    requires !Contains(x, "Host(")
    requires y == [] || y[0] == 'H'
    ensures HostBlocks(x + y) == HostBlocks(y)
  {
    if x == [] {
      assert x + y == y;
    } else {
      var rule := x + y;
      NoMatchAcross(x, y);
      AbsentInSuffix(x, 1, "Host(");
      HostBlocksSkip(x[1..], y);
      if |rule| >= 5 {
        HostBlocksNoMatch(rule);
        assert rule[1..] == x[1..] + y;
      } else {
        assert |y| < 5;
      }
    }
  }

  /** A backtick-quoted token is everything up to the next backtick. */
  lemma BacktickMatch(t: string, rest: string)
    requires t != [] && '`' !in t
    ensures BacktickTokens("`" + t + "`" + rest) == [t] + BacktickTokens(rest)
  {
    var block := "`" + t + "`" + rest;
    assert block[1..] == t + "`" + rest;
    assert block[1..][|t|] == '`';
    var j := IndexOf(block[1..], '`').value;
    assert j == |t|;
    assert block[1..1 + j] == t;
    assert block[1 + j + 1..] == rest;
  }

  /** Text without backticks between tokens contributes nothing. */
  lemma {:induction false} BacktickSkip(x: string, y: string)
    requires '`' !in x
    ensures BacktickTokens(x + y) == BacktickTokens(y)
  {
    if x == [] {
      assert x + y == y;
    } else {
      assert (x + y)[1..] == x[1..] + y;
      BacktickSkip(x[1..], y);
    }
  }

  // ------------------------------------------------------------- public URLs

  /** An `https` URL whose host part is non-empty and stripped. */
  predicate IsHttpsUrl(u: string)
  {
    |u| > 8 && u[..8] == "https://" && IsTrimmed(u[8..])
  }

  /** The host one backtick token names: expanded, then stripped. */
  function TokenHost(token: string, domain: string): string
  {
    Trim(ExpandDomain(Str(token), domain))
  }

  /** What one backtick token contributes: its host with `https://` in front,
      or nothing when the host is blank. */
  function TokenUrls(token: string, domain: string): seq<string>
  {
    var host := TokenHost(token, domain);
    if host == "" then [] else ["https://" + host]
  }

  function TokensUrls(tokens: seq<string>, domain: string): seq<string>
  {
    if tokens == [] then []
    else TokensUrls(tokens[..|tokens| - 1], domain) + TokenUrls(tokens[|tokens| - 1], domain)
  }

  /** What one `Host(...)` block contributes. */
  function BlockUrls(block: string, domain: string): seq<string>
  {
    TokensUrls(BacktickTokens(block), domain)
  }

  function BlocksUrls(blocks: seq<string>, domain: string): seq<string>
  {
    if blocks == [] then []
    else BlocksUrls(blocks[..|blocks| - 1], domain) + BlockUrls(blocks[|blocks| - 1], domain)
  }

  /** What `extract_public_urls_from_rule(rule, domain)` returns. */
  function RuleUrls(rule: Value, domain: string): seq<string>
  {
    if !rule.Str? then [] else BlocksUrls(HostBlocks(rule.s), domain)
  }

  /** `extract_public_urls_from_rule(rule, domain)`: the URLs of every
      `Host(...)` block, block by block. */
  method ExtractPublicUrls(rule: Value, domain: string) returns (urls: seq<string>)
    ensures urls == RuleUrls(rule, domain)
  {
    if !rule.Str? {
      return [];
    }
    urls := [];
    var blocks := HostBlocks(rule.s);
    for i := 0 to |blocks|
      invariant urls == BlocksUrls(blocks[..i], domain)
    {
      var found := TokenUrlsOf(BacktickTokens(blocks[i]), domain);
      urls := urls + found;
      assert blocks[..i + 1][..i] == blocks[..i];
    }
    assert blocks[..|blocks|] == blocks;
  }

  /** The inner loop of `extract_public_urls_from_rule`: for each backtick
      token of one block, the expanded and stripped host becomes an `https`
      URL unless it is blank. */
  method TokenUrlsOf(tokens: seq<string>, domain: string) returns (found: seq<string>)
    ensures found == TokensUrls(tokens, domain)
  {
    found := [];
    for j := 0 to |tokens|
      invariant found == TokensUrls(tokens[..j], domain)
    {
      TokensUrlsStep(tokens, j, domain);
      var host := TokenHost(tokens[j], domain);
      if host != "" {
        found := found + ["https://" + host];
      }
    }
    assert tokens[..|tokens|] == tokens;
  }

  /** Every URL found is `https://` followed by a non-empty, stripped host. */
  lemma {:induction false} TokensUrlsHttps(tokens: seq<string>, domain: string)
    ensures forall u :: u in TokensUrls(tokens, domain) ==> IsHttpsUrl(u)
  {
    if tokens != [] {
      TokensUrlsHttps(tokens[..|tokens| - 1], domain);
      var host := TokenHost(tokens[|tokens| - 1], domain);
      assert ("https://" + host)[8..] == host;
    }
  }

  lemma {:induction false} BlocksUrlsHttps(blocks: seq<string>, domain: string)
    ensures forall u :: u in BlocksUrls(blocks, domain) ==> IsHttpsUrl(u)
  {
    if blocks != [] {
      BlocksUrlsHttps(blocks[..|blocks| - 1], domain);
      TokensUrlsHttps(BacktickTokens(blocks[|blocks| - 1]), domain);
    }
  }

  lemma RuleUrlsHttps(rule: Value, domain: string)
    ensures forall u :: u in RuleUrls(rule, domain) ==> IsHttpsUrl(u)
  {
    if rule.Str? {
      BlocksUrlsHttps(HostBlocks(rule.s), domain);
    }
  }

  lemma TokensUrlsStep(tokens: seq<string>, j: nat, domain: string)
    requires j < |tokens|
    ensures TokensUrls(tokens[..j + 1], domain) == TokensUrls(tokens[..j], domain) + TokenUrls(tokens[j], domain)
  {
    assert tokens[..j + 1][..j] == tokens[..j];
  }

  // ------------------------------------------------ rules written as matchers

  /** A host name as it is written inside a backtick token: non-empty,
      stripped, and free of backticks, `)` and `$`. */
  predicate PlainHost(h: string)
  {
    h != [] && IsTrimmed(h) && ')' !in h && '`' !in h && '$' !in h
  }

  /** Hosts quoted in backticks and separated by commas, as in
      `` `a`,`b` ``. */
  function Quoted(hosts: seq<string>): string
  {
    if hosts == [] then ""
    else if |hosts| == 1 then "`" + hosts[0] + "`"
    else "`" + hosts[0] + "`" + ("," + Quoted(hosts[1..]))
  }

  /** `Host(...)` matchers joined by `||`, one per group of hosts, as in
      `` Host(`a`) || Host(`b`,`c`) ``. */
  function Matchers(groups: seq<seq<string>>): string
  {
    if groups == [] then ""
    else if |groups| == 1 then "Host(" + Quoted(groups[0]) + ")"
    else "Host(" + Quoted(groups[0]) + ")" + (" || " + Matchers(groups[1..]))
  }

  /** Every group names at least one host and every host is plain. */
  predicate PlainGroups(groups: seq<seq<string>>)
  {
    && (forall i :: 0 <= i < |groups| ==> groups[i] != [])
    && (forall i, j :: 0 <= i < |groups| && 0 <= j < |groups[i]| ==> PlainHost(groups[i][j]))
  }

  /** The hosts of all groups, in the order they are written. */
  function Flatten(groups: seq<seq<string>>): seq<string>
  {
    if groups == [] then [] else Flatten(groups[..|groups| - 1]) + groups[|groups| - 1]
  }

  /** The `https` URL of each host, in order. */
  function HttpsUrls(hosts: seq<string>): seq<string>
  {
    if hosts == [] then [] else HttpsUrls(hosts[..|hosts| - 1]) + ["https://" + hosts[|hosts| - 1]]
  }

  /** A plain host survives `TokenHost` unchanged, whatever the domain. */
  lemma PlainTokenHost(host: string, domain: string)
    requires PlainHost(host)
    ensures TokenHost(host, domain) == host
  {
    ExpandDomainIdentity(Str(host), domain);
    assert "" + host + "" == host;
    TrimOfPadded("", host, "");
  }

  /** Plain hosts become their `https` URLs, one each and in order. */
  lemma {:induction false} PlainTokensUrls(hosts: seq<string>, domain: string)
    requires forall i :: 0 <= i < |hosts| ==> PlainHost(hosts[i])
    ensures TokensUrls(hosts, domain) == HttpsUrls(hosts)
  {
    if hosts != [] {
      PlainTokensUrls(hosts[..|hosts| - 1], domain);
      PlainTokenHost(hosts[|hosts| - 1], domain);
    }
  }

  lemma {:induction false} HttpsUrlsAppend(a: seq<string>, b: seq<string>)
    ensures HttpsUrls(a + b) == HttpsUrls(a) + HttpsUrls(b)
  {
    if b == [] {
      assert a + b == a;
    } else {
      var init, last := b[..|b| - 1], b[|b| - 1];
      assert (a + b)[..|a + b| - 1] == a + init;
      HttpsUrlsAppend(a, init);
    }
  }

  /** A quoted host list is non-empty, opens with a backtick and holds no `)`. */
  lemma {:induction false} QuotedShape(hosts: seq<string>)
    requires hosts != [] && forall i :: 0 <= i < |hosts| ==> PlainHost(hosts[i])
    ensures Quoted(hosts) != [] && Quoted(hosts)[0] == '`' && ')' !in Quoted(hosts)
  {
    if |hosts| > 1 {
      QuotedShape(hosts[1..]);
    }
  }

  /** The backtick tokens of a quoted host list are the hosts themselves. */
  lemma {:induction false} QuotedTokens(hosts: seq<string>)
    requires forall i :: 0 <= i < |hosts| ==> PlainHost(hosts[i])
    ensures BacktickTokens(Quoted(hosts)) == hosts
  {
    if |hosts| == 1 {
      assert Quoted(hosts) == "`" + hosts[0] + "`" + "";
      BacktickMatch(hosts[0], "");
    } else if |hosts| > 1 {
      var rest := Quoted(hosts[1..]);
      BacktickMatch(hosts[0], "," + rest);
      BacktickSkip(",", rest);
      QuotedTokens(hosts[1..]);
      assert hosts == [hosts[0]] + hosts[1..];
    }
  }

  /** The quoted text of each group, in order. */
  function QuotedAll(groups: seq<seq<string>>): seq<string>
  {
    if groups == [] then [] else QuotedAll(groups[..|groups| - 1]) + [Quoted(groups[|groups| - 1])]
  }

  lemma {:induction false} QuotedAllCons(groups: seq<seq<string>>)
    requires groups != []
    ensures QuotedAll(groups) == [Quoted(groups[0])] + QuotedAll(groups[1..])
  {
    if |groups| == 1 {
      assert groups[..0] == [] && groups[1..] == [];
    } else {
      var init, last := groups[..|groups| - 1], groups[|groups| - 1];
      var head := [Quoted(groups[0])];
      calc {
        QuotedAll(groups);
        QuotedAll(init) + [Quoted(last)];
      == { QuotedAllCons(init); }
        (head + QuotedAll(init[1..])) + [Quoted(last)];
        head + (QuotedAll(init[1..]) + [Quoted(last)]);
      == { assert init[1..] == groups[1..][..|groups| - 2] && groups[1..][|groups| - 2] == last; }
        head + QuotedAll(groups[1..]);
      }
    }
  }

  /** Each matcher of the rule is one `Host(...)` block: its quoted hosts. */
  lemma {:induction false} MatchersBlocks(groups: seq<seq<string>>)
    requires PlainGroups(groups)
    ensures HostBlocks(Matchers(groups)) == QuotedAll(groups)
  {
    if groups != [] {
      var q := Quoted(groups[0]);
      QuotedShape(groups[0]);
      QuotedAllCons(groups);
      if |groups| == 1 {
        assert Matchers(groups) == "Host(" + q + ")" + "";
        HostBlocksMatch(q, "");
        assert groups[1..] == [];
      } else {
        var rest := Matchers(groups[1..]);
        assert PlainGroups(groups[1..]) by {
          forall i | 0 <= i < |groups[1..]| ensures groups[1..][i] == groups[i + 1] { }
        }
        MatchersBlocks(groups[1..]);
        assert rest[..5] == "Host(";
        HostBlocksMatch(q, " || " + rest);
        AbsentHead(" || ", "Host(");
        HostBlocksSkip(" || ", rest);
      }
    }
  }

  /** The URLs of the blocks are the `https` URLs of all their hosts. */
  lemma {:induction false} QuotedAllUrls(groups: seq<seq<string>>, domain: string)
    requires PlainGroups(groups)
    ensures BlocksUrls(QuotedAll(groups), domain) == HttpsUrls(Flatten(groups))
  {
    if groups != [] {
      var init, last := groups[..|groups| - 1], groups[|groups| - 1];
      var blocks := QuotedAll(groups);
      assert blocks[..|blocks| - 1] == QuotedAll(init);
      assert PlainGroups(init);
      QuotedAllUrls(init, domain);
      QuotedTokens(last);
      PlainTokensUrls(last, domain);
      HttpsUrlsAppend(Flatten(init), last);
    }
  }

  /** A rule made of `Host(...)` matchers over plain hosts yields the `https`
      URL of every host, in the order written: matcher by matcher, and
      within a matcher token by token. */
  lemma MatchersUrls(groups: seq<seq<string>>, domain: string)
    requires PlainGroups(groups)
    ensures RuleUrls(Str(Matchers(groups)), domain) == HttpsUrls(Flatten(groups))
  {
    MatchersBlocks(groups);
    QuotedAllUrls(groups, domain);
  }
}
