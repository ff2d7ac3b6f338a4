/** The exception policy the domain-graph resolver consults: domain
    initializer and keeper rules, path groups and address groups, the
    lookups over the rule lists, and parse_ip. */
module Exceptions {
  import opened CStrings
  import opened Primitives
  import opened DomainStore

  const FROM_SEPARATOR: string := " from "

  /** The fields the initializer and keeper entries share: a domain part, a
      program part, the `no_` flag and whether the domain is a last name. */
  datatype ExceptionRule<D, P> = ExceptionRule(domain: D, program: P, isNot: bool, isLastName: bool)

  /** `struct domain_initializer_entry`: "program [from domain]". No domain
      means every domain. */
  type InitializerRule = ExceptionRule<Option<string>, string>

  /** `struct domain_keeper_entry`: "[program from] domain". No program
      means every program. */
  type KeeperRule = ExceptionRule<string, Option<string>>

  /** A named group of members, as path and address groups are. */
  datatype NamedGroup<M> = NamedGroup(name: string, members: seq<M>)

  /** `struct path_group_entry`. */
  type PathGroup = NamedGroup<string>

  /** `struct ip_address_entry`: 16 bytes each way; IPv4 uses the first four. */
  datatype IpEntry = IpEntry(min: seq<Byte>, max: seq<Byte>, isV6: bool)

  /** `struct address_group_entry`. */
  type AddressGroup = NamedGroup<IpEntry>

  // ---------------------------------------------------------------
  // is_domain_keeper, is_domain_initializer
  // ---------------------------------------------------------------

  /** The lookup loop both functions share: scanning rules from index `i`,
      a matching negated rule ends the scan with NULL, and a matching
      positive rule becomes the new candidate. */
  function LastUnvetoed(hit: seq<bool>, neg: seq<bool>, i: nat, flag: Option<nat>): Option<nat>
    requires |hit| == |neg|
    decreases |hit| - i
  {
    if i >= |hit| then flag
    else if !hit[i] then LastUnvetoed(hit, neg, i + 1, flag)
    else if neg[i] then None
    else LastUnvetoed(hit, neg, i + 1, Some(i))
  }

  /** Some rule from `i` on matches and is negated. */
  predicate VetoedFrom(hit: seq<bool>, neg: seq<bool>, i: nat)
    requires |hit| == |neg|
  {
    exists k :: i <= k < |hit| && hit[k] && neg[k]
  }

  /** `r` is the last matching rule, or None when no rule matches. */
  predicate IsLastHit(hit: seq<bool>, r: Option<nat>)
  {
    match r
    case None => forall k :: 0 <= k < |hit| ==> !hit[k]
    case Some(f) => f < |hit| && hit[f] && forall k :: f < k < |hit| ==> !hit[k]
  }

  lemma {:induction false} LastUnvetoedFrom(hit: seq<bool>, neg: seq<bool>, i: nat, flag: Option<nat>)
    requires |hit| == |neg| && i <= |hit|
    requires flag.None? ==> forall k :: 0 <= k < i ==> !hit[k]
    requires flag.Some? ==> flag.value < i && hit[flag.value] && forall k :: flag.value < k < i ==> !hit[k]
    ensures VetoedFrom(hit, neg, i) ==> LastUnvetoed(hit, neg, i, flag) == None
    ensures !VetoedFrom(hit, neg, i) ==> IsLastHit(hit, LastUnvetoed(hit, neg, i, flag))
    decreases |hit| - i
  {
    if i < |hit| {
      if !hit[i] {
        LastUnvetoedFrom(hit, neg, i + 1, flag);
        assert VetoedFrom(hit, neg, i) ==> VetoedFrom(hit, neg, i + 1);
      } else if !neg[i] {
        LastUnvetoedFrom(hit, neg, i + 1, Some(i));
        assert VetoedFrom(hit, neg, i) ==> VetoedFrom(hit, neg, i + 1);
      }
    }
  }

  /** The veto semantics: any matching negated rule gives NULL wherever it
      stands; otherwise the answer is the last matching rule, or NULL when
      none matches. */
  lemma LastUnvetoedSpec(hit: seq<bool>, neg: seq<bool>)
    requires |hit| == |neg|
    ensures VetoedFrom(hit, neg, 0) ==> LastUnvetoed(hit, neg, 0, None) == None
    ensures !VetoedFrom(hit, neg, 0) ==> IsLastHit(hit, LastUnvetoed(hit, neg, 0, None))
  {
    LastUnvetoedFrom(hit, neg, 0, None);
  }

  /** A rule's domain part against a domain name: the whole name, or for a
      last-name rule only the text after the name's final space. */
  predicate ScopeMatches(scope: string, isLastName: bool, name: string)
  {
    if isLastName then scope == AfterLastSpace(name) else scope == name
  }

  predicate KeeperMatches(rule: KeeperRule, name: string, program: string)
  {
    ScopeMatches(rule.domain, rule.isLastName, name) && (rule.program.None? || rule.program.value == program)
  }

  predicate InitializerMatches(rule: InitializerRule, name: string, program: string)
  {
    (rule.domain.None? || ScopeMatches(rule.domain.value, rule.isLastName, name)) && rule.program == program
  }

  /** Which keeper rules match (name, program). */
  function KeeperHits(rules: seq<KeeperRule>, name: string, program: string): (h: seq<bool>)
    ensures |h| == |rules| && forall k :: 0 <= k < |rules| ==> h[k] == KeeperMatches(rules[k], name, program)
  {
    seq(|rules|, k requires 0 <= k < |rules| => KeeperMatches(rules[k], name, program))
  }

  /** Which rules carry the `no_` prefix. */
  function Negations<D, P>(rules: seq<ExceptionRule<D, P>>): (n: seq<bool>)
    ensures |n| == |rules| && forall k :: 0 <= k < |rules| ==> n[k] == rules[k].isNot
  {
    seq(|rules|, k requires 0 <= k < |rules| => rules[k].isNot)
  }

  /** Which initializer rules match (name, program). */
  function InitializerHits(rules: seq<InitializerRule>, name: string, program: string): (h: seq<bool>)
    ensures |h| == |rules| && forall k :: 0 <= k < |rules| ==> h[k] == InitializerMatches(rules[k], name, program)
  {
    seq(|rules|, k requires 0 <= k < |rules| => InitializerMatches(rules[k], name, program))
  }

  /** is_domain_keeper: the index of the rule it returns, None for NULL. */
  function IsDomainKeeper(rules: seq<KeeperRule>, name: string, program: string): Option<nat>
  {
    LastUnvetoed(KeeperHits(rules, name, program), Negations(rules), 0, None)
  }

  /** is_domain_initializer: the index of the rule it returns, None for NULL. */
  function IsDomainInitializer(rules: seq<InitializerRule>, name: string, program: string): Option<nat>
  {
    LastUnvetoed(InitializerHits(rules, name, program), Negations(rules), 0, None)
  }

  /** Some keeper rule matching (name, program) is negated. */
  predicate KeeperVetoed(rules: seq<KeeperRule>, name: string, program: string)
  {
    exists k :: 0 <= k < |rules| && KeeperMatches(rules[k], name, program) && rules[k].isNot
  }

  /** Some initializer rule matching (name, program) is negated. */
  predicate InitializerVetoed(rules: seq<InitializerRule>, name: string, program: string)
  {
    exists k :: 0 <= k < |rules| && InitializerMatches(rules[k], name, program) && rules[k].isNot
  }

  lemma KeeperLookup(rules: seq<KeeperRule>, name: string, program: string)
    ensures KeeperVetoed(rules, name, program) ==> IsDomainKeeper(rules, name, program) == None
    ensures !KeeperVetoed(rules, name, program) ==>
      match IsDomainKeeper(rules, name, program)
      case None => forall k :: 0 <= k < |rules| ==> !KeeperMatches(rules[k], name, program)
      case Some(f) => f < |rules| && KeeperMatches(rules[f], name, program) && !rules[f].isNot
                      && forall k :: f < k < |rules| ==> !KeeperMatches(rules[k], name, program)
  {
    var hit := KeeperHits(rules, name, program);
    var neg := Negations(rules);
    LastUnvetoedSpec(hit, neg);
    assert KeeperVetoed(rules, name, program) <==> VetoedFrom(hit, neg, 0);
  }

  lemma InitializerLookup(rules: seq<InitializerRule>, name: string, program: string)
    ensures InitializerVetoed(rules, name, program) ==> IsDomainInitializer(rules, name, program) == None
    ensures !InitializerVetoed(rules, name, program) ==>
      match IsDomainInitializer(rules, name, program)
      case None => forall k :: 0 <= k < |rules| ==> !InitializerMatches(rules[k], name, program)
      case Some(f) => f < |rules| && InitializerMatches(rules[f], name, program) && !rules[f].isNot
                      && forall k :: f < k < |rules| ==> !InitializerMatches(rules[k], name, program)
  {
    var hit := InitializerHits(rules, name, program);
    var neg := Negations(rules);
    LastUnvetoedSpec(hit, neg);
    assert InitializerVetoed(rules, name, program) <==> VetoedFrom(hit, neg, 0);
  }

  /** A last-name rule sees only the final component: two domains ending in
      the same component get the same answer from a last-name-only rule list. */
  lemma {:induction false} LastNameRulesSeeLastComponent(rules: seq<KeeperRule>, a: string, b: string, program: string)
    requires forall k :: 0 <= k < |rules| ==> rules[k].isLastName
    requires AfterLastSpace(a) == AfterLastSpace(b)
    ensures IsDomainKeeper(rules, a, program) == IsDomainKeeper(rules, b, program)
  {
    assert KeeperHits(rules, a, program) == KeeperHits(rules, b, program);
  }

  /** An initializer rule without a domain applies under every domain. */
  lemma {:induction false} DomainlessInitializerAppliesEverywhere(rules: seq<InitializerRule>, name: string, program: string)
    requires |rules| > 0
    requires var last := rules[|rules| - 1]; last.domain.None? && last.program == program && !last.isNot
    requires !InitializerVetoed(rules, name, program)
    ensures IsDomainInitializer(rules, name, program) == Some(|rules| - 1)
  {
    InitializerLookup(rules, name, program);
  }

  // ---------------------------------------------------------------
  // add_domain_initializer_entry/_policy, add_domain_keeper_entry/_policy
  // ---------------------------------------------------------------

  /** What add_domain_initializer_entry does to the rule list, and its return code. */
  function InitializerAdd(env: Env, rules: seq<InitializerRule>, domain: Option<string>, program: string, isNot: bool)
    : (r: (seq<InitializerRule>, int))
    ensures r.1 == 0 <==> env.isProgramPath(program)
                          && (domain.None? || env.isLastNamePath(domain.value) || env.isCorrectDomain(domain.value))
    ensures r.1 != 0 ==> r.1 == -EINVAL && r.0 == rules
    ensures r.1 == 0 ==> r.0 == rules + [ExceptionRule(domain, program, isNot,
                                                          domain.Some? && env.isLastNamePath(domain.value))]
  {
    if !env.isProgramPath(program) then (rules, -EINVAL)
    else if domain.Some? && !env.isLastNamePath(domain.value) && !env.isCorrectDomain(domain.value) then (rules, -EINVAL)
    else (rules + [ExceptionRule(domain, program, isNot, domain.Some? && env.isLastNamePath(domain.value))], 0)
  }

  /** What add_keeper_entry does to the rule list, and its return code. */
  function KeeperAdd(env: Env, rules: seq<KeeperRule>, domain: string, program: Option<string>, isNot: bool)
    : (r: (seq<KeeperRule>, int))
    ensures r.1 == 0 <==> (env.isLastNamePath(domain) || env.isCorrectDomain(domain))
                          && (program.None? || env.isProgramPath(program.value))
    ensures r.1 != 0 ==> r.1 == -EINVAL && r.0 == rules
    ensures r.1 == 0 ==> r.0 == rules + [ExceptionRule(domain, program, isNot, env.isLastNamePath(domain))]
  {
    if !env.isLastNamePath(domain) && !env.isCorrectDomain(domain) then (rules, -EINVAL)
    else if program.Some? && !env.isProgramPath(program.value) then (rules, -EINVAL)
    else (rules + [ExceptionRule(domain, program, isNot, env.isLastNamePath(domain))], 0)
  }

  /** add_domain_initializer_policy's split: "program from domain" or "program". */
  function InitializerParts(data: string): (Option<string>, string)
  {
    match FindFrom(data, FROM_SEPARATOR, 0)
    case Some(p) => (Some(data[p + |FROM_SEPARATOR|..]), data[..p])
    case None => (None, data)
  }

  /** add_domain_keeper_policy's split: "program from domain" or "domain". */
  function KeeperParts(data: string): (string, Option<string>)
  {
    match FindFrom(data, FROM_SEPARATOR, 0)
    case Some(p) => (data[p + |FROM_SEPARATOR|..], Some(data[..p]))
    case None => (data, None)
  }

  /** A program name without spaces is split off exactly, whatever the domain. */
  lemma {:induction false} FromSplitExact(program: string, domain: string)
    requires ' ' !in program
    ensures InitializerParts(program + FROM_SEPARATOR + domain) == (Some(domain), program)
    ensures KeeperParts(program + FROM_SEPARATOR + domain) == (domain, Some(program))
  {
    var s := program + FROM_SEPARATOR + domain;
    assert OccursAt(s, FROM_SEPARATOR, |program|) by {
      assert s[|program|..|program| + |FROM_SEPARATOR|] == FROM_SEPARATOR;
    }
    forall j | 0 <= j < |program| ensures !OccursAt(s, FROM_SEPARATOR, j) {
      assert s[j] == program[j] && program[j] in program;
    }
    var r := FindFrom(s, FROM_SEPARATOR, 0);
    assert r == Some(|program|);
    assert s[..|program|] == program;
    assert s[|program| + |FROM_SEPARATOR|..] == domain;
  }

  /** A string without " from " is taken whole. */
  lemma FromSplitNone(data: string)
    requires forall j :: !OccursAt(data, FROM_SEPARATOR, j)
    ensures InitializerParts(data) == (None, data)
    ensures KeeperParts(data) == (data, None)
  {
  }

  /** A positive initializer rule "p from d" that was accepted decides the
      lookup for domain d and program p, unless an earlier negated rule
      applies there. */
  lemma {:induction false} AddedInitializerDecides(env: Env, rules: seq<InitializerRule>, program: string, domain: string)
    requires ' ' !in program
    requires !env.isLastNamePath(domain)
    requires !InitializerVetoed(rules, domain, program)
    requires var p := InitializerParts(program + FROM_SEPARATOR + domain);
             InitializerAdd(env, rules, p.0, p.1, false).1 == 0
    ensures var p := InitializerParts(program + FROM_SEPARATOR + domain);
            IsDomainInitializer(InitializerAdd(env, rules, p.0, p.1, false).0, domain, program) == Some(|rules|)
  {
    FromSplitExact(program, domain);
    var rules' := InitializerAdd(env, rules, Some(domain), program, false).0;
    assert rules'[|rules|] == ExceptionRule(Some(domain), program, false, false);
    InitializerLookup(rules', domain, program);
  }

  /** A positive keeper rule for a full domain name decides the lookup for
      that domain and every program, unless a negated rule applies there. */
  lemma {:induction false} AddedKeeperDecides(env: Env, rules: seq<KeeperRule>, domain: string, program: string)
    requires !env.isLastNamePath(domain) && env.isCorrectDomain(domain)
    requires !KeeperVetoed(rules, domain, program)
    ensures IsDomainKeeper(KeeperAdd(env, rules, domain, None, false).0, domain, program) == Some(|rules|)
  {
    var rules' := KeeperAdd(env, rules, domain, None, false).0;
    assert rules'[|rules|] == ExceptionRule(domain, None, false, false);
    KeeperLookup(rules', domain, program);
  }

  // ---------------------------------------------------------------
  // Path groups
  // ---------------------------------------------------------------

  /** find_path_group and find_address_group: the first group with that
      name. */
  function FindGroup<M>(groups: seq<NamedGroup<M>>, name: string): (r: Option<nat>)
    ensures r.Some? ==> r.value < |groups| && groups[r.value].name == name
                        && forall k :: 0 <= k < r.value ==> groups[k].name != name
    ensures r.None? <==> forall k :: 0 <= k < |groups| ==> groups[k].name != name
  {
    if groups == [] then None
    else match FindGroup(groups[..|groups| - 1], name)
      case Some(k) => Some(k)
      case None => if groups[|groups| - 1].name == name then Some(|groups| - 1) else None
  }

  lemma FindGroupAt<M>(groups: seq<NamedGroup<M>>, name: string, g: nat)
    requires g < |groups| && groups[g].name == name
    requires forall k :: 0 <= k < g ==> groups[k].name != name
    ensures FindGroup(groups, name) == Some(g)
  {
  }

  /** add_path_group_entry with is_delete false. */
  function PathGroupAdd(env: Env, groups: seq<PathGroup>, group: string, member: string): (seq<PathGroup>, int)
  {
    if !env.isGroupToken(group) || !env.isGroupToken(member) then (groups, -EINVAL)
    else match FindGroup(groups, group)
      case Some(g) =>
        if member in groups[g].members then (groups, 0)
        else (groups[g := groups[g].(members := groups[g].members + [member])], 0)
      case None => (groups + [NamedGroup(group, [member])], 0)
  }

  predicate UniqueGroupNames(groups: seq<PathGroup>)
  {
    forall i, j :: 0 <= i < j < |groups| ==> groups[i].name != groups[j].name
  }

  /** Adding a member: the error cases, where it lands, and that no other
      group changes and group names stay unique. */
  lemma {:induction false} PathGroupAddSpec(env: Env, groups: seq<PathGroup>, group: string, member: string)
    ensures var r := PathGroupAdd(env, groups, group, member);
            && (r.1 == 0 <==> env.isGroupToken(group) && env.isGroupToken(member))
            && (r.1 != 0 ==> r.1 == -EINVAL && r.0 == groups)
            && (r.1 == 0 ==> FindGroup(r.0, group).Some?
                             && member in r.0[FindGroup(r.0, group).value].members)
            && (r.1 == 0 ==> |groups| <= |r.0| && forall k :: 0 <= k < |groups| && groups[k].name != group ==> r.0[k] == groups[k])
            && (UniqueGroupNames(groups) ==> UniqueGroupNames(r.0))
  {
    var r := PathGroupAdd(env, groups, group, member);
    if r.1 == 0 {
      match FindGroup(groups, group)
      case Some(g) =>
        FindGroupAt(r.0, group, g);
      case None =>
        FindGroupAt(r.0, group, |groups|);
    }
  }

  /** Adding the same member twice is the same as adding it once. */
  lemma {:induction false} PathGroupAddIdempotent(env: Env, groups: seq<PathGroup>, group: string, member: string)
    ensures var once := PathGroupAdd(env, groups, group, member);
            PathGroupAdd(env, once.0, group, member) == (once.0, once.1)
  {
    var once := PathGroupAdd(env, groups, group, member);
    if once.1 == 0 {
      PathGroupAddSpec(env, groups, group, member);
      match FindGroup(groups, group)
      case Some(g) =>
        FindGroupAt(once.0, group, g);
      case None =>
        FindGroupAt(once.0, group, |groups|);
    }
  }

  /** add_path_group_policy's split at the first space. */
  function GroupPolicyParts(data: string): Option<(string, string)>
  {
    match FirstIndexOf(data, ' ')
    case None => None
    case Some(k) => Some((data[..k], data[k + 1..]))
  }

  // ---------------------------------------------------------------
  // parse_ip and address groups
  // ---------------------------------------------------------------

  const IPV4_SEPARATORS: string := "...-..."
  const IPV6_SEPARATORS: string := ":::::::-:::::::"

  function Zeros(n: nat): (r: seq<Byte>)
    ensures |r| == n && forall k :: 0 <= k < n ==> r[k] == 0
  {
    if n == 0 then [] else Zeros(n - 1) + [0]
  }

  /** Four `%u` values below 256 are kept as they are. */
  lemma V4BytesOfBytes(a: seq<Byte>)
    requires |a| == 4
    ensures V4Bytes(a) == a + Zeros(12)
  {
    var z := a + Zeros(12);
    forall k | 0 <= k < 16 ensures V4Bytes(a)[k] == z[k] {
      if k < 4 {
        assert z[k] == a[k];
      } else {
        assert z[k] == Zeros(12)[k - 4];
      }
    }
  }

  /** Four `%u` values cast to `u8`, then twelve zero bytes. */
  function V4Bytes(v: seq<nat>): (r: seq<Byte>)
    requires |v| == 4
    ensures |r| == 16
  {
    seq(16, k requires 0 <= k < 16 => if k < 4 then v[k] % 256 else 0)
  }

  /** Eight `%X` values as big-endian 16-bit groups, each byte cast to `u8`. */
  function V6Bytes(v: seq<nat>): (r: seq<Byte>)
    requires |v| == 8
    ensures |r| == 16
  {
    seq(16, k requires 0 <= k < 16 => if k % 2 == 0 then (v[k / 2] / 256) % 256 else v[k / 2] % 256)
  }

  /** parse_ip: None where it returns -EINVAL. */
  function ParseIp(address: string): (r: Option<IpEntry>)
    ensures r.Some? ==> |r.value.min| == 16 && |r.value.max| == 16
  {
    var v4 := ScanList(address, IPV4_SEPARATORS, false);
    if |v4| == 4 then Some(IpEntry(V4Bytes(v4), V4Bytes(v4), false))
    else if |v4| == 8 then Some(IpEntry(V4Bytes(v4[..4]), V4Bytes(v4[4..]), false))
    else
      var v6 := ScanList(address, IPV6_SEPARATORS, true);
      if |v6| == 8 then Some(IpEntry(V6Bytes(v6), V6Bytes(v6), true))
      else if |v6| == 16 then Some(IpEntry(V6Bytes(v6[..8]), V6Bytes(v6[8..]), true))
      else None
  }

  /** A dotted-quad address, as `%u.%u.%u.%u` prints it. */
  function FormatIpv4(a: seq<Byte>): string
    requires |a| == 4
  {
    JoinNumerals(a, IPV4_SEPARATORS[..3], false)
  }

  /** Eight 16-bit groups, as `%X:%X:...:%X` prints them. */
  function FormatIpv6(g: seq<nat>): string
    requires |g| == 8
  {
    JoinNumerals(g, IPV6_SEPARATORS[..7], true)
  }

  lemma Ipv4SeparatorsAreNotDigits()
    ensures forall k :: 0 <= k < |IPV4_SEPARATORS| ==> DigitValue(IPV4_SEPARATORS[k], false).None?
  {
  }

  lemma Ipv6SeparatorsAreNotDigits()
    ensures forall k :: 0 <= k < |IPV6_SEPARATORS| ==> DigitValue(IPV6_SEPARATORS[k], true).None?
  {
  }

  /** A single IPv4 address parses to a range whose two ends are both that
      address in the first four bytes, the rest zero. */
  lemma {:induction false} ParseIpv4Single(a: seq<Byte>)
    requires |a| == 4
    ensures ParseIp(FormatIpv4(a)) == Some(IpEntry(a + Zeros(12), a + Zeros(12), false))
  {
    Ipv4SeparatorsAreNotDigits();
    ScanJoinNumerals(a, IPV4_SEPARATORS[..3], IPV4_SEPARATORS, false);
    ParseIpOfV4(FormatIpv4(a), a);
    V4BytesOfBytes(a);
  }

  /** An IPv4 range parses to its two ends. */
  lemma {:induction false} ParseIpv4Range(a: seq<Byte>, b: seq<Byte>)
    requires |a| == 4 && |b| == 4
    ensures ParseIp(JoinNumerals(a + b, IPV4_SEPARATORS, false))
         == Some(IpEntry(a + Zeros(12), b + Zeros(12), false))
  {
    Ipv4SeparatorsAreNotDigits();
    assert IPV4_SEPARATORS[..|IPV4_SEPARATORS|] == IPV4_SEPARATORS;
    ScanJoinNumerals(a + b, IPV4_SEPARATORS, IPV4_SEPARATORS, false);
    assert (a + b)[..4] == a && (a + b)[4..] == b;
    ParseIpOfV4Range(JoinNumerals(a + b, IPV4_SEPARATORS, false), a + b);
    V4BytesOfBytes(a);
    V4BytesOfBytes(b);
  }

  /** A single IPv6 address parses to a range whose two ends are its groups
      stored big-endian, high byte first. */
  lemma {:induction false} ParseIpv6Single(g: seq<nat>)
    requires |g| == 8 && forall k :: 0 <= k < 8 ==> g[k] < 65536
    ensures var e := ParseIp(FormatIpv6(g));
            && e.Some? && e.value.isV6 && e.value.min == e.value.max
            && forall k :: 0 <= k < 8 ==> e.value.min[2 * k] as int * 256 + e.value.min[2 * k + 1] as int == g[k]
  {
    var s := FormatIpv6(g);
    JoinNumeralsAvoids(g, IPV6_SEPARATORS[..7], true, '.');
    Ipv4NotMistaken(s);
    Ipv6SeparatorsAreNotDigits();
    ScanJoinNumerals(g, IPV6_SEPARATORS[..7], IPV6_SEPARATORS, true);
    ParseIpOfV6(s, g);
    V6BytesGroups(g);
  }

  /** The branches of parse_ip, each on the values its `sscanf` read. */
  lemma ParseIpOfV4(s: string, v: seq<nat>)
    requires ScanList(s, IPV4_SEPARATORS, false) == v && |v| == 4
    ensures ParseIp(s) == Some(IpEntry(V4Bytes(v), V4Bytes(v), false))
  {
  }

  lemma ParseIpOfV4Range(s: string, v: seq<nat>)
    requires ScanList(s, IPV4_SEPARATORS, false) == v && |v| == 8
    ensures ParseIp(s) == Some(IpEntry(V4Bytes(v[..4]), V4Bytes(v[4..]), false))
  {
  }

  lemma ParseIpOfV6(s: string, v: seq<nat>)
    requires |ScanList(s, IPV4_SEPARATORS, false)| <= 1
    requires ScanList(s, IPV6_SEPARATORS, true) == v && |v| == 8
    ensures ParseIp(s) == Some(IpEntry(V6Bytes(v), V6Bytes(v), true))
  {
  }

  /** Each 16-bit group is split into its high and low byte. */
  lemma V6BytesGroups(g: seq<nat>)
    requires |g| == 8 && forall k :: 0 <= k < 8 ==> g[k] < 65536
    ensures forall k :: 0 <= k < 8 ==> V6Bytes(g)[2 * k] as int * 256 + V6Bytes(g)[2 * k + 1] as int == g[k]
  {
    forall k | 0 <= k < 8 ensures V6Bytes(g)[2 * k] as int * 256 + V6Bytes(g)[2 * k + 1] as int == g[k] {
      assert (2 * k) / 2 == k && (2 * k + 1) / 2 == k;
      assert (2 * k) % 2 == 0 && (2 * k + 1) % 2 == 1;
      SplitSixteen(g[k]);
    }
  }

  lemma SplitSixteen(v: nat)
    requires v < 65536
    ensures (v / 256) % 256 * 256 + v % 256 == v
  {
    assert v / 256 < 256;
  }

  /** Text without a '.' never reads as an IPv4 address. */
  lemma Ipv4NotMistaken(s: string)
    requires '.' !in s
    ensures |ScanList(s, IPV4_SEPARATORS, false)| <= 1
  {
    match ScanNumber(s, false)
    case None =>
    case Some((v, n)) =>
      if n < |s| {
        assert s[n] in s;
      }
  }

  /** add_address_group_entry with is_delete false; entries compare by value,
      as the `memcmp` of the whole entry does. */
  function AddressGroupAdd(env: Env, groups: seq<AddressGroup>, group: string, address: string): (seq<AddressGroup>, int)
  {
    match ParseIp(address)
    case None => (groups, -EINVAL)
    case Some(e) =>
      if !env.isGroupToken(group) then (groups, -EINVAL)
      else (AddressInsert(groups, group, e), 0)
  }

  /** The store step of add_address_group_entry, once the address parsed. */
  function AddressInsert(groups: seq<AddressGroup>, group: string, e: IpEntry): seq<AddressGroup>
  {
    match FindGroup(groups, group)
    case Some(g) =>
      if e in groups[g].members then groups
      else groups[g := groups[g].(members := groups[g].members + [e])]
    case None => groups + [NamedGroup(group, [e])]
  }

  predicate UniqueAddressGroupNames(groups: seq<AddressGroup>)
  {
    forall i, j :: 0 <= i < j < |groups| ==> groups[i].name != groups[j].name
  }

  /** Adding an address: the error cases and where the parsed entry lands. */
  lemma {:induction false} AddressGroupAddSpec(env: Env, groups: seq<AddressGroup>, group: string, address: string)
    ensures var r := AddressGroupAdd(env, groups, group, address);
            && (r.1 == 0 <==> ParseIp(address).Some? && env.isGroupToken(group))
            && (r.1 != 0 ==> r.1 == -EINVAL && r.0 == groups)
            && (r.1 == 0 ==> FindGroup(r.0, group).Some?
                             && ParseIp(address).value in r.0[FindGroup(r.0, group).value].members)
            && (r.1 == 0 ==> |groups| <= |r.0| && forall k :: 0 <= k < |groups| && groups[k].name != group ==> r.0[k] == groups[k])
            && (UniqueAddressGroupNames(groups) ==> UniqueAddressGroupNames(r.0))
  {
    match ParseIp(address)
    case None =>
    case Some(e) =>
      if env.isGroupToken(group) {
        AddressInsertSpec(groups, group, e);
      }
  }

  /** Where an inserted entry lands: in the group of that name (appended
      when the group lacks it), or in a new group at the end; the other
      groups are untouched. */
  lemma AddressInsertSpec(groups: seq<AddressGroup>, group: string, e: IpEntry)
    ensures var r := AddressInsert(groups, group, e);
            && FindGroup(r, group).Some?
            && e in r[FindGroup(r, group).value].members
            && |groups| <= |r| && (forall k :: 0 <= k < |groups| && groups[k].name != group ==> r[k] == groups[k])
            && (UniqueAddressGroupNames(groups) ==> UniqueAddressGroupNames(r))
  {
    var r := AddressInsert(groups, group, e);
    match FindGroup(groups, group)
    case Some(g) =>
      FindGroupAt(r, group, g);
    case None =>
      FindGroupAt(r, group, |groups|);
  }

  // ---------------------------------------------------------------
  // The *_policy wrappers and the exception-policy loader
  // ---------------------------------------------------------------

  const KEYWORD_INITIALIZE_DOMAIN: string := "initialize_domain "
  const KEYWORD_NO_INITIALIZE_DOMAIN: string := "no_initialize_domain "
  const KEYWORD_KEEP_DOMAIN: string := "keep_domain "
  const KEYWORD_NO_KEEP_DOMAIN: string := "no_keep_domain "
  const KEYWORD_PATH_GROUP: string := "path_group "
  const KEYWORD_ADDRESS_GROUP: string := "address_group "

  /** add_domain_initializer_policy. */
  function InitializerPolicyAdd(env: Env, rules: seq<InitializerRule>, data: string, isNot: bool): (seq<InitializerRule>, int)
  {
    var p := InitializerParts(data);
    InitializerAdd(env, rules, p.0, p.1, isNot)
  }

  /** add_domain_keeper_policy. */
  function KeeperPolicyAdd(env: Env, rules: seq<KeeperRule>, data: string, isNot: bool): (seq<KeeperRule>, int)
  {
    var p := KeeperParts(data);
    KeeperAdd(env, rules, p.0, p.1, isNot)
  }

  /** add_path_group_policy with is_delete false: no space is -EINVAL. */
  function PathGroupPolicyAdd(env: Env, groups: seq<PathGroup>, data: string): (seq<PathGroup>, int)
  {
    match GroupPolicyParts(data)
    case None => (groups, -EINVAL)
    case Some((g, m)) => PathGroupAdd(env, groups, g, m)
  }

  /** add_address_group_policy with is_delete false: no space is -EINVAL. */
  function AddressGroupPolicyAdd(env: Env, groups: seq<AddressGroup>, data: string): (seq<AddressGroup>, int)
  {
    match GroupPolicyParts(data)
    case None => (groups, -EINVAL)
    case Some((g, a)) => AddressGroupAdd(env, groups, g, a)
  }

  /** The four registries the exception policy fills. */
  datatype Registries = Registries(
    initializers: seq<InitializerRule>,
    keepers: seq<KeeperRule>,
    pathGroups: seq<PathGroup>,
    addressGroups: seq<AddressGroup>)

  /** One line of the exception-policy loader: the first keyword that the
      line starts with is stripped and the rest handed to its handler; the
      handler's return code is ignored, and other lines are skipped. */
  function ApplyExceptionLine(env: Env, reg: Registries, line: string): Registries
  {
    if StartsWith(line, KEYWORD_INITIALIZE_DOMAIN) then
      reg.(initializers := InitializerPolicyAdd(env, reg.initializers, line[|KEYWORD_INITIALIZE_DOMAIN|..], false).0)
    else if StartsWith(line, KEYWORD_NO_INITIALIZE_DOMAIN) then
      reg.(initializers := InitializerPolicyAdd(env, reg.initializers, line[|KEYWORD_NO_INITIALIZE_DOMAIN|..], true).0)
    else if StartsWith(line, KEYWORD_KEEP_DOMAIN) then
      reg.(keepers := KeeperPolicyAdd(env, reg.keepers, line[|KEYWORD_KEEP_DOMAIN|..], false).0)
    else if StartsWith(line, KEYWORD_NO_KEEP_DOMAIN) then
      reg.(keepers := KeeperPolicyAdd(env, reg.keepers, line[|KEYWORD_NO_KEEP_DOMAIN|..], true).0)
    else if StartsWith(line, KEYWORD_PATH_GROUP) then
      reg.(pathGroups := PathGroupPolicyAdd(env, reg.pathGroups, line[|KEYWORD_PATH_GROUP|..]).0)
    else if StartsWith(line, KEYWORD_ADDRESS_GROUP) then
      reg.(addressGroups := AddressGroupPolicyAdd(env, reg.addressGroups, line[|KEYWORD_ADDRESS_GROUP|..]).0)
    else reg
  }

  function ApplyExceptionScript(env: Env, reg: Registries, lines: seq<string>): Registries
  {
    if lines == [] then reg
    else ApplyExceptionLine(env, ApplyExceptionScript(env, reg, lines[..|lines| - 1]), lines[|lines| - 1])
  }

  /** The registries only grow: rules are appended, groups are appended or
      gain members. */
  predicate Extends(before: Registries, after: Registries)
  {
    && before.initializers <= after.initializers
    && before.keepers <= after.keepers
    && |before.pathGroups| <= |after.pathGroups|
    && (forall k :: 0 <= k < |before.pathGroups| ==>
          after.pathGroups[k].name == before.pathGroups[k].name
          && before.pathGroups[k].members <= after.pathGroups[k].members)
    && |before.addressGroups| <= |after.addressGroups|
    && (forall k :: 0 <= k < |before.addressGroups| ==>
          after.addressGroups[k].name == before.addressGroups[k].name
          && before.addressGroups[k].members <= after.addressGroups[k].members)
  }

  predicate WellFormed(reg: Registries)
  {
    UniqueGroupNames(reg.pathGroups) && UniqueAddressGroupNames(reg.addressGroups)
  }

  lemma ExtendsTransitive(a: Registries, b: Registries, c: Registries)
    requires Extends(a, b) && Extends(b, c)
    ensures Extends(a, c)
  {
  }

  lemma {:induction false} PathGroupPolicyAddExtends(env: Env, groups: seq<PathGroup>, data: string)
    ensures var r := PathGroupPolicyAdd(env, groups, data).0;
            && |groups| <= |r|
            && (forall k :: 0 <= k < |groups| ==> r[k].name == groups[k].name && groups[k].members <= r[k].members)
            && (UniqueGroupNames(groups) ==> UniqueGroupNames(r))
  {
    match GroupPolicyParts(data)
    case None =>
    case Some((g, m)) =>
      PathGroupAddSpec(env, groups, g, m);
  }

  lemma {:induction false} AddressGroupPolicyAddExtends(env: Env, groups: seq<AddressGroup>, data: string)
    ensures var r := AddressGroupPolicyAdd(env, groups, data).0;
            && |groups| <= |r|
            && (forall k :: 0 <= k < |groups| ==> r[k].name == groups[k].name && groups[k].members <= r[k].members)
            && (UniqueAddressGroupNames(groups) ==> UniqueAddressGroupNames(r))
  {
    match GroupPolicyParts(data)
    case None =>
    case Some((g, a)) =>
      AddressGroupAddSpec(env, groups, g, a);
  }

  /** One loader line only grows the registries and keeps group names unique. */
  lemma {:induction false} ExceptionLineExtends(env: Env, reg: Registries, line: string)
    ensures Extends(reg, ApplyExceptionLine(env, reg, line))
    ensures WellFormed(reg) ==> WellFormed(ApplyExceptionLine(env, reg, line))
  {
    if StartsWith(line, KEYWORD_INITIALIZE_DOMAIN) || StartsWith(line, KEYWORD_NO_INITIALIZE_DOMAIN)
       || StartsWith(line, KEYWORD_KEEP_DOMAIN) || StartsWith(line, KEYWORD_NO_KEEP_DOMAIN) {
    } else if StartsWith(line, KEYWORD_PATH_GROUP) {
      PathGroupPolicyAddExtends(env, reg.pathGroups, line[|KEYWORD_PATH_GROUP|..]);
    } else if StartsWith(line, KEYWORD_ADDRESS_GROUP) {
      AddressGroupPolicyAddExtends(env, reg.addressGroups, line[|KEYWORD_ADDRESS_GROUP|..]);
    }
  }

  /** A whole exception file only grows the registries, and loading it onto
      empty registries leaves every group name unique. */
  lemma {:induction false} ExceptionScriptExtends(env: Env, reg: Registries, lines: seq<string>)
    ensures Extends(reg, ApplyExceptionScript(env, reg, lines))
    ensures WellFormed(reg) ==> WellFormed(ApplyExceptionScript(env, reg, lines))
    decreases |lines|
  {
    if lines != [] {
      var mid := ApplyExceptionScript(env, reg, lines[..|lines| - 1]);
      ExceptionScriptExtends(env, reg, lines[..|lines| - 1]);
      ExceptionLineExtends(env, mid, lines[|lines| - 1]);
      ExtendsTransitive(reg, mid, ApplyExceptionScript(env, reg, lines));
    }
  }

  /** An "initialize_domain p from d" line accepted by the loader makes its
      rule the answer for (d, p), unless an earlier negated rule applies. */
  lemma {:induction false} LoadedInitializerDecides(env: Env, reg: Registries, program: string, domain: string)
    requires ' ' !in program
    requires env.isProgramPath(program) && !env.isLastNamePath(domain) && env.isCorrectDomain(domain)
    requires !InitializerVetoed(reg.initializers, domain, program)
    ensures var line := KEYWORD_INITIALIZE_DOMAIN + program + FROM_SEPARATOR + domain;
            IsDomainInitializer(ApplyExceptionLine(env, reg, line).initializers, domain, program)
            == Some(|reg.initializers|)
  {
    var data := program + FROM_SEPARATOR + domain;
    var line := KEYWORD_INITIALIZE_DOMAIN + program + FROM_SEPARATOR + domain;
    assert line == KEYWORD_INITIALIZE_DOMAIN + data;
    assert StartsWith(line, KEYWORD_INITIALIZE_DOMAIN) && line[|KEYWORD_INITIALIZE_DOMAIN|..] == data;
    FromSplitExact(program, domain);
    AddedInitializerDecides(env, reg.initializers, program, domain);
  }

  /** The exception-policy registries (the file-scope lists of editpolicy.c). */
  class ExceptionPolicy {
    var initializers: seq<InitializerRule>
    var keepers: seq<KeeperRule>
    var pathGroups: seq<PathGroup>
    var addressGroups: seq<AddressGroup>

    constructor ()
      ensures Snapshot() == Registries([], [], [], [])
    {
      initializers := [];
      keepers := [];
      pathGroups := [];
      addressGroups := [];
    }

    function Snapshot(): Registries
      reads this
    {
      Registries(initializers, keepers, pathGroups, addressGroups)
    }

    /** The list resets at the start of read_domain_and_exception_policy. */
    method Clear()
      modifies this
      ensures Snapshot() == Registries([], [], [], [])
    {
      initializers := [];
      keepers := [];
      pathGroups := [];
      addressGroups := [];
    }

    method AddDomainInitializerEntry(env: Env, domain: Option<string>, program: string, isNot: bool) returns (r: int)
      modifies this
      ensures (initializers, r) == InitializerAdd(env, old(initializers), domain, program, isNot)
      ensures keepers == old(keepers) && pathGroups == old(pathGroups) && addressGroups == old(addressGroups)
    {
      var isLastName := false;
      if !env.isProgramPath(program) {
        return -EINVAL;
      }
      if domain.Some? {
        if env.isLastNamePath(domain.value) {
          isLastName := true;
        } else if !env.isCorrectDomain(domain.value) {
          return -EINVAL;
        }
      }
      initializers := initializers + [ExceptionRule(domain, program, isNot, isLastName)];
      r := 0;
    }

    method AddDomainInitializerPolicy(env: Env, data: string, isNot: bool) returns (r: int)
      modifies this
      ensures (initializers, r) == InitializerPolicyAdd(env, old(initializers), data, isNot)
      ensures keepers == old(keepers) && pathGroups == old(pathGroups) && addressGroups == old(addressGroups)
    {
      var cp := FindFrom(data, FROM_SEPARATOR, 0);
      if cp.Some? {
        r := AddDomainInitializerEntry(env, Some(data[cp.value + |FROM_SEPARATOR|..]), data[..cp.value], isNot);
      } else {
        r := AddDomainInitializerEntry(env, None, data, isNot);
      }
    }

    method AddDomainKeeperEntry(env: Env, domain: string, program: Option<string>, isNot: bool) returns (r: int)
      modifies this
      ensures (keepers, r) == KeeperAdd(env, old(keepers), domain, program, isNot)
      ensures initializers == old(initializers) && pathGroups == old(pathGroups) && addressGroups == old(addressGroups)
    {
      var isLastName := false;
      if env.isLastNamePath(domain) {
        isLastName := true;
      } else if !env.isCorrectDomain(domain) {
        return -EINVAL;
      }
      if program.Some? && !env.isProgramPath(program.value) {
        return -EINVAL;
      }
      keepers := keepers + [ExceptionRule(domain, program, isNot, isLastName)];
      r := 0;
    }

    method AddDomainKeeperPolicy(env: Env, data: string, isNot: bool) returns (r: int)
      modifies this
      ensures (keepers, r) == KeeperPolicyAdd(env, old(keepers), data, isNot)
      ensures initializers == old(initializers) && pathGroups == old(pathGroups) && addressGroups == old(addressGroups)
    {
      var cp := FindFrom(data, FROM_SEPARATOR, 0);
      if cp.Some? {
        r := AddDomainKeeperEntry(env, data[cp.value + |FROM_SEPARATOR|..], Some(data[..cp.value]), isNot);
      } else {
        r := AddDomainKeeperEntry(env, data, None, isNot);
      }
    }

    /** add_path_group_entry with is_delete false: scan for the group, then
        for the member, and append whichever is missing. */
    method AddPathGroupEntry(env: Env, group: string, member: string) returns (r: int)
      modifies this
      ensures (pathGroups, r) == PathGroupAdd(env, old(pathGroups), group, member)
      ensures initializers == old(initializers) && keepers == old(keepers) && addressGroups == old(addressGroups)
    {
      if !env.isGroupToken(group) || !env.isGroupToken(member) {
        return -EINVAL;
      }
      var i := 0;
      while i < |pathGroups| && pathGroups[i].name != group
        invariant 0 <= i <= |pathGroups|
        invariant forall k :: 0 <= k < i ==> pathGroups[k].name != group
      {
        i := i + 1;
      }
      if i == |pathGroups| {
        pathGroups := pathGroups + [NamedGroup(group, [member])];
        return 0;
      }
      FindGroupAt(pathGroups, group, i);
      var members := pathGroups[i].members;
      var j := 0;
      while j < |members|
        invariant 0 <= j <= |members|
        invariant member !in members[..j]
      {
        if members[j] == member {
          return 0;
        }
        assert members[..j + 1] == members[..j] + [members[j]];
        j := j + 1;
      }
      assert members[..j] == members;
      pathGroups := pathGroups[i := pathGroups[i].(members := members + [member])];
      r := 0;
    }

    method AddPathGroupPolicy(env: Env, data: string) returns (r: int)
      modifies this
      ensures (pathGroups, r) == PathGroupPolicyAdd(env, old(pathGroups), data)
      ensures initializers == old(initializers) && keepers == old(keepers) && addressGroups == old(addressGroups)
    {
      var cp := FirstIndexOf(data, ' ');
      if cp.None? {
        return -EINVAL;
      }
      r := AddPathGroupEntry(env, data[..cp.value], data[cp.value + 1..]);
    }

    /** add_address_group_entry with is_delete false: parse first, then the
        same scan as for path groups, comparing entries by value. */
    method AddAddressGroupEntry(env: Env, group: string, address: string) returns (r: int)
      modifies this
      ensures (addressGroups, r) == AddressGroupAdd(env, old(addressGroups), group, address)
      ensures initializers == old(initializers) && keepers == old(keepers) && pathGroups == old(pathGroups)
    {
      var entry := ParseIp(address);
      if entry.None? {
        return -EINVAL;
      }
      if !env.isGroupToken(group) {
        return -EINVAL;
      }
      InsertAddress(group, entry.value);
      r := 0;
    }

    method InsertAddress(group: string, e: IpEntry)
      modifies this
      ensures addressGroups == AddressInsert(old(addressGroups), group, e)
      ensures initializers == old(initializers) && keepers == old(keepers) && pathGroups == old(pathGroups)
    {
      var i := 0;
      while i < |addressGroups| && addressGroups[i].name != group
        invariant 0 <= i <= |addressGroups|
        invariant forall k :: 0 <= k < i ==> addressGroups[k].name != group
      {
        i := i + 1;
      }
      if i == |addressGroups| {
        addressGroups := addressGroups + [NamedGroup(group, [e])];
        return;
      }
      FindGroupAt(addressGroups, group, i);
      var members := addressGroups[i].members;
      var j := 0;
      while j < |members|
        invariant 0 <= j <= |members|
        invariant e !in members[..j]
      {
        if members[j] == e {
          return;
        }
        assert members[..j + 1] == members[..j] + [members[j]];
        j := j + 1;
      }
      assert members[..j] == members;
      addressGroups := addressGroups[i := addressGroups[i].(members := members + [e])];
    }

    method AddAddressGroupPolicy(env: Env, data: string) returns (r: int)
      modifies this
      ensures (addressGroups, r) == AddressGroupPolicyAdd(env, old(addressGroups), data)
      ensures initializers == old(initializers) && keepers == old(keepers) && pathGroups == old(pathGroups)
    {
      var cp := FirstIndexOf(data, ' ');
      if cp.None? {
        return -EINVAL;
      }
      r := AddAddressGroupEntry(env, data[..cp.value], data[cp.value + 1..]);
    }

    /** The exception-policy loop of read_domain_and_exception_policy. */
    method LoadExceptionPolicy(env: Env, lines: seq<string>)
      modifies this
      ensures Snapshot() == ApplyExceptionScript(env, old(Snapshot()), lines)
    {
      var k := 0;
      while k < |lines|
        invariant 0 <= k <= |lines|
        invariant Snapshot() == ApplyExceptionScript(env, old(Snapshot()), lines[..k])
      {
        assert lines[..k + 1][..k] == lines[..k];
        var line := lines[k];
        var rc: int;
        if StartsWith(line, KEYWORD_INITIALIZE_DOMAIN) {
          rc := AddDomainInitializerPolicy(env, line[|KEYWORD_INITIALIZE_DOMAIN|..], false);
        } else if StartsWith(line, KEYWORD_NO_INITIALIZE_DOMAIN) {
          rc := AddDomainInitializerPolicy(env, line[|KEYWORD_NO_INITIALIZE_DOMAIN|..], true);
        } else if StartsWith(line, KEYWORD_KEEP_DOMAIN) {
          rc := AddDomainKeeperPolicy(env, line[|KEYWORD_KEEP_DOMAIN|..], false);
        } else if StartsWith(line, KEYWORD_NO_KEEP_DOMAIN) {
          rc := AddDomainKeeperPolicy(env, line[|KEYWORD_NO_KEEP_DOMAIN|..], true);
        } else if StartsWith(line, KEYWORD_PATH_GROUP) {
          rc := AddPathGroupPolicy(env, line[|KEYWORD_PATH_GROUP|..]);
        } else if StartsWith(line, KEYWORD_ADDRESS_GROUP) {
          rc := AddAddressGroupPolicy(env, line[|KEYWORD_ADDRESS_GROUP|..]);
        }
        k := k + 1;
      }
      assert lines[..k] == lines;
    }
  }
}
