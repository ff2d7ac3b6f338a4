/** The redundancy optimiser of the ACL editor: split_acl, which cuts an
    operand into its fields, compare_path and compare_address, which decide
    whether one field covers another, and try_optimize, which selects every
    entry of the list that the entry under the cursor makes redundant. */
module Optimizer {
  import opened CStrings
  import opened Primitives
  import opened DomainStore
  import opened Exceptions
  import opened Directives

  /** `struct generic_acl`: one line of the ACL list screen. */
  datatype GenericAcl = GenericAcl(directive: nat, selected: bool, operand: string)

  /** What split_acl leaves in `arg1`, `arg2`, `arg3` and returns. */
  datatype AclParts = AclParts(subtype: nat, first: string, second: string, condition: string)

  // ---------------------------------------------------------------
  // split_acl
  // ---------------------------------------------------------------

  const IF_SEPARATOR: string := " if "
  const SET_SEPARATOR: string := " ; set "

  /** The protocol and operation prefixes of allow_network, in the order
      split_acl tries them; prefix k gives subtype k + 1. */
  const NETWORK_PREFIXES: seq<string> := [
    "UDP bind ", "UDP connect ", "TCP bind ", "TCP listen ",
    "TCP connect ", "TCP accept ", "RAW bind ", "RAW connect "]

  /** Where the condition part begins: at the last " if ", or when there is
      none at the first " ; set ", or nowhere. */
  function ConditionStart(data: string): (r: Option<nat>)
    ensures r.Some? ==> r.value + 4 <= |data|
  {
    match FindLast(data, IF_SEPARATOR)
    case Some(p) => Some(p)
    case None => FindFrom(data, SET_SEPARATOR, 0)
  }

  /** The precedence ConditionStart follows: a " if " wins and it is the
      last one; otherwise it is the first " ; set "; otherwise neither
      occurs. */
  lemma ConditionStartSpec(data: string)
    ensures var r := ConditionStart(data);
      && (r.Some? && OccursAt(data, IF_SEPARATOR, r.value) ==> forall j :: r.value < j ==> !OccursAt(data, IF_SEPARATOR, j))
      && (r.Some? && !OccursAt(data, IF_SEPARATOR, r.value) ==>
            && (forall j :: !OccursAt(data, IF_SEPARATOR, j))
            && OccursAt(data, SET_SEPARATOR, r.value)
            && forall j :: 0 <= j < r.value ==> !OccursAt(data, SET_SEPARATOR, j))
      && (r.None? <==> (forall j :: !OccursAt(data, IF_SEPARATOR, j)) && (forall j :: 0 <= j ==> !OccursAt(data, SET_SEPARATOR, j)))
  {
  }

  /** The str_starts chain of allow_network: the subtype and the text left
      once its prefix is consumed. */
  function NetworkPrefix(s: string): (r: (nat, string))
    ensures r.0 <= |NETWORK_PREFIXES|
    ensures r.0 == 0 ==> r.1 == s && forall k :: 0 <= k < |NETWORK_PREFIXES| ==> !StartsWith(s, NETWORK_PREFIXES[k])
    ensures r.0 > 0 ==> s == NETWORK_PREFIXES[r.0 - 1] + r.1
                        && forall k :: 0 <= k < r.0 - 1 ==> !StartsWith(s, NETWORK_PREFIXES[k])
  {
    PrefixFrom(s, 0)
  }

  function PrefixFrom(s: string, k: nat): (r: (nat, string))
    decreases |NETWORK_PREFIXES| - k
    ensures r.0 == 0 ==> r.1 == s && forall j :: k <= j < |NETWORK_PREFIXES| ==> !StartsWith(s, NETWORK_PREFIXES[j])
    ensures r.0 > 0 ==> k < r.0 <= |NETWORK_PREFIXES| && s == NETWORK_PREFIXES[r.0 - 1] + r.1
                        && forall j :: k <= j < r.0 - 1 ==> !StartsWith(s, NETWORK_PREFIXES[j])
  {
    if k >= |NETWORK_PREFIXES| then (0, s)
    else if StartsWith(s, NETWORK_PREFIXES[k]) then
      assert s == NETWORK_PREFIXES[k] + s[|NETWORK_PREFIXES[k]|..];
      (k + 1, s[|NETWORK_PREFIXES[k]|..])
    else PrefixFrom(s, k + 1)
  }

  /** The cut at the first space: the word before it and the rest after it,
      or the whole text and "" when there is no space. */
  function FirstWord(s: string): (r: (string, string))
    ensures ' ' !in r.0
    ensures ' ' in s ==> s == r.0 + " " + r.1
    ensures ' ' !in s ==> r == (s, "")
  {
    match FirstIndexOf(s, ' ')
    case Some(q) =>
      assert s == s[..q] + " " + s[q + 1..];
      (s[..q], s[q + 1..])
    case None => (s, "")
  }

  /** The cut at the condition part: the text before it and the condition
      part without its leading space, or the whole text and "". */
  function CutCondition(data: string): (r: (string, string))
    ensures ConditionStart(data).None? ==> r == (data, "")
    ensures ConditionStart(data).Some? ==> data == r.0 + " " + r.1 && r.1 != ""
  {
    match ConditionStart(data)
    case Some(p) =>
      assert data == data[..p] + " " + data[p + 1..];
      (data[..p], data[p + 1..])
    case None => (data, "")
  }

  /** The prefix step, taken for allow_network only. */
  function NetworkBody(index: nat, head: string): (r: (nat, string))
    ensures index != DIRECTIVE_ALLOW_NETWORK ==> r == (0, head)
  {
    if index == DIRECTIVE_ALLOW_NETWORK then NetworkPrefix(head) else (0, head)
  }

  /** split_acl(index, data). */
  function SplitAclSpec(index: nat, data: string): (r: AclParts)
  {
    var cut := CutCondition(data);
    var body := NetworkBody(index, cut.0);
    var words := FirstWord(body.1);
    AclParts(body.0, words.0, words.1, cut.1)
  }

  /** split_acl, including its loop to the last " if ". */
  method SplitAcl(index: nat, data: string) returns (parts: AclParts)
    ensures parts == SplitAclSpec(index, data)
  {
    var head, condition := SplitCondition(data);
    var subtype := 0;
    if index == DIRECTIVE_ALLOW_NETWORK {
      subtype, head := StripNetworkPrefix(head);
    }
    var words := FirstWord(head);
    parts := AclParts(subtype, words.0, words.1, condition);
  }

  /** The condition cut of split_acl. Any occurrence of " if " after one at
      `p` starts at `p + 3` or later, so chaining the searches from `p + 3`
      reaches the last one. */
  method SplitCondition(data: string) returns (head: string, condition: string)
    ensures (head, condition) == CutCondition(data)
  {
    head, condition := data, "";
    var found := FindFrom(data, IF_SEPARATOR, 0);
    if found.Some? {
      var cp := found.value;
      while true
        invariant OccursAt(data, IF_SEPARATOR, cp)
        decreases |data| - cp
      {
        var next := FindFrom(data, IF_SEPARATOR, cp + 3);
        if next.None? {
          break;
        }
        cp := next.value;
      }
      LastIfFound(data, cp);
      head, condition := data[..cp], data[cp + 1..];
    } else {
      var semi := FindFrom(data, SET_SEPARATOR, 0);
      if semi.Some? {
        head, condition := data[..semi.value], data[semi.value + 1..];
      }
    }
  }

  /** The str_starts chain of split_acl for allow_network. */
  method StripNetworkPrefix(head: string) returns (subtype: nat, rest: string)
    ensures (subtype, rest) == NetworkPrefix(head)
  {
    subtype, rest := 0, head;
    var k := 0;
    while k < |NETWORK_PREFIXES|
      invariant 0 <= k <= |NETWORK_PREFIXES|
      invariant PrefixFrom(head, k) == NetworkPrefix(head)
    {
      var prefix := NETWORK_PREFIXES[k];
      if |prefix| <= |head| && head[..|prefix|] == prefix {
        return k + 1, head[|prefix|..];
      }
      k := k + 1;
    }
  }

  /** An occurrence of " if " with none from three places on is the last. */
  lemma LastIfFound(data: string, cp: nat)
    requires OccursAt(data, IF_SEPARATOR, cp)
    requires FindFrom(data, IF_SEPARATOR, cp + 3).None?
    ensures FindLast(data, IF_SEPARATOR) == Some(cp)
    ensures ConditionStart(data) == Some(cp)
  {
    forall j | cp < j ensures !OccursAt(data, IF_SEPARATOR, j) {
      if j < cp + 3 {
        SeparatorLetters(data, cp);
        OccursAtFirst(data, IF_SEPARATOR, j);
      }
    }
  }

  lemma SeparatorLetters(data: string, cp: nat)
    requires OccursAt(data, IF_SEPARATOR, cp)
    ensures data[cp + 1] == 'i' && data[cp + 2] == 'f'
  {
    assert data[cp + 1] == data[cp..cp + 4][1];
    assert data[cp + 2] == data[cp..cp + 4][2];
  }

  /** The condition part of an operand, the same whatever the directive
      (see SplitAclCondition). */
  function Condition(data: string): string
  {
    CutCondition(data).1
  }

  lemma SplitAclCondition(index: nat, data: string)
    ensures SplitAclSpec(index, data).condition == Condition(data)
  {
  }

  /** The text a network subtype stands for: its prefix, or "" for none. */
  function SubtypePrefix(subtype: nat): string
  {
    if 0 < subtype <= |NETWORK_PREFIXES| then NETWORK_PREFIXES[subtype - 1] else ""
  }

  /** The condition part as it stands in the operand: " " and the
      condition, or "" when there is none. */
  function ConditionSuffix(condition: string): string
  {
    if condition == "" then "" else " " + condition
  }

  /** The three fields put back together give the operand: the network
      prefix (if any), the first word, a space and the second field when
      there was a space, and " " and the condition part when there is one. */
  lemma SplitAclRejoins(index: nat, data: string)
    ensures var p := SplitAclSpec(index, data);
            && ' ' !in p.first
            && (p.subtype != 0 ==> index == DIRECTIVE_ALLOW_NETWORK && p.subtype <= 8)
            && (data == SubtypePrefix(p.subtype) + p.first + " " + p.second + ConditionSuffix(p.condition)
                || (p.second == "" && data == SubtypePrefix(p.subtype) + p.first + ConditionSuffix(p.condition)))
  {
    var cut := CutCondition(data);
    var body := NetworkBody(index, cut.0);
    CutRejoins(data);
    NetworkBodyRejoins(index, cut.0);
    RejoinWords(data, cut.0, ConditionSuffix(cut.1), SubtypePrefix(body.0), body.1);
  }

  lemma CutRejoins(data: string)
    ensures data == CutCondition(data).0 + ConditionSuffix(CutCondition(data).1)
  {
  }

  lemma NetworkBodyRejoins(index: nat, head: string)
    ensures var body := NetworkBody(index, head);
            head == SubtypePrefix(body.0) + body.1 && (body.0 != 0 ==> index == DIRECTIVE_ALLOW_NETWORK && body.0 <= 8)
  {
  }

  lemma RejoinWords(data: string, head: string, tail: string, pre: string, rest: string)
    requires data == head + tail && head == pre + rest
    ensures var w := FirstWord(rest);
            data == pre + w.0 + " " + w.1 + tail || (w.1 == "" && data == pre + w.0 + tail)
  {
    var w := FirstWord(rest);
    if ' ' in rest {
      assert (pre + (w.0 + " " + w.1)) + tail == pre + w.0 + " " + w.1 + tail;
    }
  }

  /** The condition part: it is what follows the last " if " (starting with
      "if "), or failing that what follows the first " ; set " (starting with
      "; set "), or "" when neither occurs. */
  lemma {:induction false} ConditionPrecedence(data: string, p: nat)
    ensures OccursAt(data, IF_SEPARATOR, p) && (forall j :: p < j ==> !OccursAt(data, IF_SEPARATOR, j))
            ==> Condition(data) == data[p + 1..] && StartsWith(Condition(data), "if ")
    ensures (forall j :: !OccursAt(data, IF_SEPARATOR, j)) && OccursAt(data, SET_SEPARATOR, p)
            && (forall j :: 0 <= j < p ==> !OccursAt(data, SET_SEPARATOR, j))
            ==> Condition(data) == data[p + 1..] && StartsWith(Condition(data), "; set ")
    ensures (forall j :: !OccursAt(data, IF_SEPARATOR, j)) && (forall j :: 0 <= j ==> !OccursAt(data, SET_SEPARATOR, j))
            ==> Condition(data) == ""
  {
    if OccursAt(data, IF_SEPARATOR, p) && (forall j :: p < j ==> !OccursAt(data, IF_SEPARATOR, j)) {
      ConditionAtLastIf(data, p);
      ConditionTail(data, p, IF_SEPARATOR, "if ");
    }
    if (forall j :: !OccursAt(data, IF_SEPARATOR, j)) && OccursAt(data, SET_SEPARATOR, p)
       && (forall j :: 0 <= j < p ==> !OccursAt(data, SET_SEPARATOR, j)) {
      ConditionAtFirstSet(data, p);
      ConditionTail(data, p, SET_SEPARATOR, "; set ");
    }
  }

  /** The condition part cut at a separator that starts with a space begins
      with the rest of the separator. */
  lemma ConditionTail(data: string, p: nat, sep: string, tail: string)
    requires OccursAt(data, sep, p) && sep == " " + tail
    requires ConditionStart(data) == Some(p)
    ensures CutCondition(data).1 == data[p + 1..] && StartsWith(CutCondition(data).1, tail)
  {
    assert data[p + 1..][..|tail|] == data[p..p + |sep|][1..];
  }

  lemma ConditionAtLastIf(data: string, p: nat)
    requires OccursAt(data, IF_SEPARATOR, p)
    requires forall j :: p < j ==> !OccursAt(data, IF_SEPARATOR, j)
    ensures ConditionStart(data) == Some(p)
  {
    var q := FindLast(data, IF_SEPARATOR);
    assert q.Some?;
    assert !(q.value < p);
  }

  lemma ConditionAtFirstSet(data: string, p: nat)
    requires forall j :: !OccursAt(data, IF_SEPARATOR, j)
    requires OccursAt(data, SET_SEPARATOR, p)
    requires forall j :: 0 <= j < p ==> !OccursAt(data, SET_SEPARATOR, j)
    ensures ConditionStart(data) == Some(p)
  {
    assert FindLast(data, IF_SEPARATOR).None?;
    var q := FindFrom(data, SET_SEPARATOR, 0);
    assert q.Some?;
    assert !(p < q.value);
  }

  /** For allow_network the subtype numbers the prefix: an operand starting
      with prefix k (none before it matching) has subtype k + 1 and its first
      field is read after the prefix; other directives always have subtype 0. */
  lemma {:induction false} NetworkSubtype(index: nat, data: string, k: nat)
    requires ConditionStart(data).None?
    ensures index != DIRECTIVE_ALLOW_NETWORK ==> SplitAclSpec(index, data).subtype == 0
    ensures index == DIRECTIVE_ALLOW_NETWORK && k < 8 && StartsWith(data, NETWORK_PREFIXES[k])
            && (forall j :: 0 <= j < k ==> !StartsWith(data, NETWORK_PREFIXES[j]))
            ==> SplitAclSpec(index, data).subtype == k + 1
                && SplitAclSpec(index, data).first == FirstWord(data[|NETWORK_PREFIXES[k]|..]).0
  {
    if index == DIRECTIVE_ALLOW_NETWORK && k < 8 && StartsWith(data, NETWORK_PREFIXES[k])
       && (forall j :: 0 <= j < k ==> !StartsWith(data, NETWORK_PREFIXES[j])) {
      var r := NetworkPrefix(data);
      assert r.0 != 0;
      assert StartsWith(data, NETWORK_PREFIXES[r.0 - 1]);
    }
  }

  // ---------------------------------------------------------------
  // compare_path
  // ---------------------------------------------------------------

  /** Patterns in the probe may be used unless the candidate is itself
      patterned or its directive is one that names an executable. */
  predicate MayUsePattern(env: Env, d: string, directive: nat)
  {
    && !env.isPatterned(d)
    && directive != DIRECTIVE_1 && directive != DIRECTIVE_3
    && directive != DIRECTIVE_5 && directive != DIRECTIVE_7
    && directive != DIRECTIVE_ALLOW_EXECUTE
  }

  predicate MemberCovers(env: Env, member: string, d: string, may: bool)
  {
    member == d || (may && env.pathMatchesPattern(d, member))
  }

  /** The loop of compare_path over a group's members. */
  function AnyMemberCovers(env: Env, members: seq<string>, d: string, may: bool): (r: bool)
    ensures r <==> exists i :: 0 <= i < |members| && MemberCovers(env, members[i], d, may)
  {
    if members == [] then false
    else MemberCovers(env, members[0], d, may) || AnyMemberCovers(env, members[1..], d, may)
  }

  /** compare_path(sarg, darg, directive): does the probe's path field `s`
      cover the candidate's `d`? */
  function ComparePath(env: Env, groups: seq<PathGroup>, s: string, d: string, directive: nat): bool
  {
    if s == d then true
    else if StartsWith(d, "@") then false
    else if !StartsWith(s, "@") then MayUsePattern(env, d, directive) && env.pathMatchesPattern(d, s)
    else match FindGroup(groups, s[1..])
      case None => false
      case Some(g) => AnyMemberCovers(env, groups[g].members, d, MayUsePattern(env, d, directive))
  }

  /** A path group probe covers a candidate exactly when the candidate is
      the same text, or is no group itself and some member of the group either
      equals it or (patterns permitted) matches it as a pattern; an unknown
      group covers nothing else. */
  lemma {:induction false} ComparePathGroup(env: Env, groups: seq<PathGroup>, name: string, d: string, directive: nat)
    ensures ComparePath(env, groups, "@" + name, d, directive) <==>
              || d == "@" + name
              || (&& !StartsWith(d, "@")
                  && FindGroup(groups, name).Some?
                  && exists i :: 0 <= i < |groups[FindGroup(groups, name).value].members|
                       && MemberCovers(env, groups[FindGroup(groups, name).value].members[i], d, MayUsePattern(env, d, directive)))
  {
    assert ("@" + name)[1..] == name;
    assert StartsWith("@" + name, "@");
  }

  /** A literal path covers a different literal only through the pattern
      matcher, which the execute family of directives never uses. */
  lemma ExecutePathsAreExact(env: Env, groups: seq<PathGroup>, s: string, d: string, directive: nat)
    requires directive in {DIRECTIVE_1, DIRECTIVE_3, DIRECTIVE_5, DIRECTIVE_7, DIRECTIVE_ALLOW_EXECUTE}
    requires !StartsWith(s, "@")
    ensures ComparePath(env, groups, s, d, directive) <==> s == d
  {
  }

  // ---------------------------------------------------------------
  // compare_address
  // ---------------------------------------------------------------

  /** memcmp over two byte strings of the same length: the sign of the
      first differing byte. */
  function Memcmp(a: seq<Byte>, b: seq<Byte>): (r: int)
    requires |a| == |b|
    ensures -1 <= r <= 1
    ensures r == 0 <==> a == b
  {
    if a == [] then 0
    else if a[0] < b[0] then -1
    else if a[0] > b[0] then 1
    else
      assert a == [a[0]] + a[1..] && b == [b[0]] + b[1..];
      Memcmp(a[1..], b[1..])
  }

  /** Lexicographic order on byte strings of one length. */
  ghost predicate LexLe(a: seq<Byte>, b: seq<Byte>)
    requires |a| == |b|
  {
    a == b || exists k :: 0 <= k < |a| && a[..k] == b[..k] && a[k] < b[k]
  }

  lemma {:induction false} MemcmpOrder(a: seq<Byte>, b: seq<Byte>)
    requires |a| == |b|
    ensures Memcmp(a, b) <= 0 <==> LexLe(a, b)
    ensures Memcmp(a, b) == -Memcmp(b, a)
    decreases |a|
  {
    if a == [] {
    } else if a[0] != b[0] {
      LexLeHead(a, b);
    } else {
      MemcmpOrder(a[1..], b[1..]);
      LexLeTail(a, b);
      assert a == [a[0]] + a[1..] && b == [b[0]] + b[1..];
    }
  }

  /** Strings that differ in their first byte are ordered by it. */
  lemma LexLeHead(a: seq<Byte>, b: seq<Byte>)
    requires |a| == |b| && a != [] && a[0] != b[0]
    ensures LexLe(a, b) <==> a[0] < b[0]
  {
    if a[0] < b[0] {
      assert a[..0] == b[..0];
    } else {
      forall k | 0 < k < |a| ensures a[..k] != b[..k] {
        assert a[..k][0] != b[..k][0];
      }
    }
  }

  /** Strings that agree in their first byte are ordered by the rest. */
  lemma LexLeTail(a: seq<Byte>, b: seq<Byte>)
    requires |a| == |b| && a != [] && a[0] == b[0]
    ensures LexLe(a, b) <==> LexLe(a[1..], b[1..])
  {
    assert a == [a[0]] + a[1..] && b == [b[0]] + b[1..];
    if LexLe(a[1..], b[1..]) && a[1..] != b[1..] {
      var k :| 0 <= k < |a[1..]| && a[1..][..k] == b[1..][..k] && a[1..][k] < b[1..][k];
      assert a[..k + 1] == [a[0]] + a[1..][..k];
      assert b[..k + 1] == [b[0]] + b[1..][..k];
    }
    if LexLe(a, b) && a != b {
      var k :| 0 <= k < |a| && a[..k] == b[..k] && a[k] < b[k];
      assert k > 0;
      assert a[1..][..k - 1] == a[..k][1..] == b[..k][1..] == b[1..][..k - 1];
      assert a[1..][k - 1] < b[1..][k - 1];
    }
  }

  /** A literal probe address covers the candidate: the test of
      compare_address, which rejects on a family mismatch or when either
      memcmp is negative. */
  predicate RangeCovers(se: IpEntry, de: IpEntry)
    requires |se.min| == |de.min| && |se.max| == |de.max|
  {
    !(se.isV6 != de.isV6 || Memcmp(de.min, se.min) < 0 || Memcmp(se.max, de.max) < 0)
  }

  /** The same test inside the loop over an address group's members. */
  predicate MemberContains(m: IpEntry, de: IpEntry)
  {
    && |m.min| == |de.min| && |m.max| == |de.max|
    && m.isV6 == de.isV6 && Memcmp(m.min, de.min) <= 0 && Memcmp(de.max, m.max) <= 0
  }

  function AnyMemberContains(members: seq<IpEntry>, de: IpEntry): (r: bool)
    ensures r <==> exists i :: 0 <= i < |members| && MemberContains(members[i], de)
  {
    if members == [] then false
    else MemberContains(members[0], de) || AnyMemberContains(members[1..], de)
  }

  /** compare_address(sarg, darg). */
  function CompareAddress(groups: seq<AddressGroup>, s: string, d: string): bool
  {
    match ParseIp(d)
    case None => false
    case Some(de) =>
      if !StartsWith(s, "@") then
        match ParseIp(s)
        case None => false
        case Some(se) => RangeCovers(se, de)
      else match FindGroup(groups, s[1..])
        case None => false
        case Some(g) => AnyMemberContains(groups[g].members, de)
  }

  /** A literal probe covers the candidate address exactly when both parse,
      they are of one family, and the probe's range contains the candidate's,
      bytes compared lexicographically over all sixteen. */
  lemma {:induction false} CompareAddressLiteral(groups: seq<AddressGroup>, s: string, d: string)
    requires !StartsWith(s, "@")
    ensures CompareAddress(groups, s, d) <==>
              && ParseIp(s).Some? && ParseIp(d).Some?
              && ParseIp(s).value.isV6 == ParseIp(d).value.isV6
              && LexLe(ParseIp(s).value.min, ParseIp(d).value.min)
              && LexLe(ParseIp(d).value.max, ParseIp(s).value.max)
  {
    if ParseIp(s).Some? && ParseIp(d).Some? {
      var se, de := ParseIp(s).value, ParseIp(d).value;
      MemcmpOrder(se.min, de.min);
      MemcmpOrder(de.max, se.max);
    }
  }

  /** An address group probe covers the candidate exactly when the candidate
      parses and some member of the group contains it; an unknown group
      covers nothing. */
  lemma {:induction false} CompareAddressGroup(groups: seq<AddressGroup>, name: string, d: string)
    ensures CompareAddress(groups, "@" + name, d) <==>
              && ParseIp(d).Some?
              && FindGroup(groups, name).Some?
              && exists i :: 0 <= i < |groups[FindGroup(groups, name).value].members|
                   && var m := groups[FindGroup(groups, name).value].members[i];
                      && |m.min| == 16 && |m.max| == 16
                      && m.isV6 == ParseIp(d).value.isV6
                      && LexLe(m.min, ParseIp(d).value.min) && LexLe(ParseIp(d).value.max, m.max)
  {
    assert ("@" + name)[1..] == name;
    assert StartsWith("@" + name, "@");
    match ParseIp(d)
    case None =>
    case Some(de) =>
      match FindGroup(groups, name)
      case None =>
      case Some(g) =>
        var ms := groups[g].members;
        forall i | 0 <= i < |ms| && |ms[i].min| == 16 && |ms[i].max| == 16
          ensures MemberContains(ms[i], de) <==> (ms[i].isV6 == de.isV6 && LexLe(ms[i].min, de.min) && LexLe(de.max, ms[i].max))
        {
          MemcmpOrder(ms[i].min, de.min);
          MemcmpOrder(de.max, ms[i].max);
        }
  }

  // ---------------------------------------------------------------
  // try_optimize
  // ---------------------------------------------------------------

  /** The directive-compatibility table: which candidate directives a probe
      directive can make redundant. */
  predicate Compatible(s: nat, d: nat)
  {
    if s == DIRECTIVE_6 || s == DIRECTIVE_ALLOW_READ_WRITE then
      d in {DIRECTIVE_6, DIRECTIVE_ALLOW_READ_WRITE, DIRECTIVE_2, DIRECTIVE_4, DIRECTIVE_ALLOW_READ, DIRECTIVE_ALLOW_WRITE}
    else
      || (s == DIRECTIVE_2 && d == DIRECTIVE_ALLOW_WRITE)
      || (s == DIRECTIVE_4 && d == DIRECTIVE_ALLOW_READ)
      || (s == DIRECTIVE_ALLOW_WRITE && d == DIRECTIVE_2)
      || (s == DIRECTIVE_ALLOW_READ && d == DIRECTIVE_4)
      || s == d
  }

  /** A pattern-or-equal test without path groups (allow_argv0, allow_env). */
  predicate PatternOrEqual(env: Env, s: string, d: string)
  {
    s == d || (!env.isPatterned(d) && env.pathMatchesPattern(d, s))
  }

  /** The first-word test, by the candidate's directive. */
  predicate FirstWordCovers(env: Env, reg: Registries, d: nat, s1: string, d1: string)
  {
    if DIRECTIVE_1 <= d <= DIRECTIVE_ALLOW_REWRITE then ComparePath(env, reg.pathGroups, s1, d1, d)
    else if d == DIRECTIVE_ALLOW_ARGV0 then s1 == d1 || (!StartsWith(d1, "@") && PatternOrEqual(env, s1, d1))
    else if d == DIRECTIVE_ALLOW_SIGNAL then s1 == d1
    else if d == DIRECTIVE_ALLOW_NETWORK then CompareAddress(reg.addressGroups, s1, d1)
    else if d == DIRECTIVE_ALLOW_ENV then PatternOrEqual(env, s1, d1)
    else false
  }

  /** `sscanf(s, "%u-%u", &min, &max)`: one number is a single port, two
      are a range, none fails. */
  function PortRange(s: string): (r: Option<(nat, nat)>)
    ensures r.None? <==> ScanNumber(s, false).None?
    ensures r.Some? ==> r.value.0 == ScanNumber(s, false).value.0
    ensures r.Some? && (ScanNumber(s, false).value.1 == |s| || s[ScanNumber(s, false).value.1] != '-')
            ==> r.value.0 == r.value.1
  {
    var v := ScanList(s, "-", false);
    if |v| == 1 then Some((v[0], v[0]))
    else if |v| == 2 then Some((v[0], v[1]))
    else None
  }

  /** A printed port, or a printed `min-max` range, reads back as itself. */
  lemma PortRangeRoundTrip(min: nat, max: nat)
    ensures PortRange(Numeral(min, false)) == Some((min, min))
    ensures PortRange(JoinNumerals([min, max], "-", false)) == Some((min, max))
  {
    assert "-"[0] == '-' && DigitValue('-', false).None?;
    ScanJoinNumerals([min], "", "-", false);
    ScanJoinNumerals([min, max], "-", "-", false);
  }

  /** The test on the remaining words, by the candidate's directive. */
  predicate RestCovers(env: Env, reg: Registries, d: nat, s2: string, d2: string)
  {
    if d == DIRECTIVE_ALLOW_LINK || d == DIRECTIVE_ALLOW_RENAME then ComparePath(env, reg.pathGroups, s2, d2, d)
    else if d == DIRECTIVE_ALLOW_ARGV0 then PatternOrEqual(env, s2, d2)
    else if d == DIRECTIVE_ALLOW_SIGNAL then WordPrefix(d2, s2)
    else if d == DIRECTIVE_ALLOW_NETWORK then
      match (PortRange(s2), PortRange(d2))
      case (Some((smin, smax)), Some((dmin, dmax))) => smin <= dmin && dmax <= smax
      case _ => false
    else s2 == "" && d2 == ""
  }

  /** Every test try_optimize applies to a candidate, given the probe's
      directive and fields: a compatible directive, an operand that fits the
      shared buffer, an equal subtype, a byte-identical condition part, and
      the per-directive word tests. */
  predicate Covers(env: Env, reg: Registries, sIndex: nat, sp: AclParts, cand: GenericAcl, bufferSize: nat)
  {
    && Compatible(sIndex, cand.directive)
    && |cand.operand| < bufferSize
    && var dp := SplitAclSpec(cand.directive, cand.operand);
       && sp.subtype == dp.subtype
       && sp.condition == dp.condition
       && FirstWordCovers(env, reg, cand.directive, sp.first, dp.first)
       && RestCovers(env, reg, cand.directive, sp.second, dp.second)
  }

  /** One entry after try_optimize: selected when it is not the probe, was
      not selected, and the probe covers it. */
  function Mark(env: Env, reg: Registries, sIndex: nat, sp: AclParts, cand: GenericAcl, isProbe: bool, bufferSize: nat): (r: GenericAcl)
  {
    if !isProbe && !cand.selected && Covers(env, reg, sIndex, sp, cand, bufferSize)
    then cand.(selected := true) else cand
  }

  /** The list after try_optimize(current): every other entry not yet
      selected that the entry at `current` covers becomes selected. */
  function Optimized(env: Env, reg: Registries, list: seq<GenericAcl>, current: int, bufferSize: nat): (r: seq<GenericAcl>)
    requires current < |list|
    ensures |r| == |list|
  {
    if current < 0 || list[current].directive == DIRECTIVE_NONE then list
    else
      var probe := list[current];
      var sp := SplitAclSpec(probe.directive, probe.operand);
      seq(|list|, i requires 0 <= i < |list| => Mark(env, reg, probe.directive, sp, list[i], i == current, bufferSize))
  }

  /** The body of try_optimize's loop for one candidate. */
  method MarkEntry(env: Env, reg: Registries, sIndex: nat, sp: AclParts, cand: GenericAcl, isProbe: bool, bufferSize: nat)
    returns (r: GenericAcl)
    ensures r == Mark(env, reg, sIndex, sp, cand, isProbe, bufferSize)
  {
    r := cand;
    if isProbe || cand.selected {
      return;
    }
    if !Compatible(sIndex, cand.directive) || |cand.operand| >= bufferSize {
      return;
    }
    var dp := SplitAcl(cand.directive, cand.operand);
    if dp.subtype == sp.subtype && dp.condition == sp.condition
       && FirstWordCovers(env, reg, cand.directive, sp.first, dp.first)
       && RestCovers(env, reg, cand.directive, sp.second, dp.second) {
      r := cand.(selected := true);
    }
  }

  /** try_optimize(dp, current) over the list screen's entries. `bufferSize`
      is the size of the shared line buffer candidates are copied into. */
  method TryOptimize(acls: array<GenericAcl>, current: int, env: Env, reg: Registries, bufferSize: nat)
    requires current < acls.Length
    modifies acls
    ensures acls[..] == Optimized(env, reg, old(acls[..]), current, bufferSize)
  {
    if current < 0 {
      return;
    }
    var sIndex := acls[current].directive;
    if sIndex == DIRECTIVE_NONE {
      return;
    }
    ghost var before := acls[..];
    var sp := SplitAcl(sIndex, acls[current].operand);
    MarkAll(acls, env, reg, sIndex, sp, current, bufferSize);
    MarkedPrefixOptimized(env, reg, sIndex, sp, before, current, bufferSize);
  }

  /** try_optimize's loop: every entry in turn goes through MarkEntry. */
  method MarkAll(acls: array<GenericAcl>, env: Env, reg: Registries, sIndex: nat, sp: AclParts, current: int, bufferSize: nat)
    modifies acls
    ensures acls[..] == MarkedPrefix(env, reg, sIndex, sp, old(acls[..]), current, bufferSize, acls.Length)
  {
    ghost var before := acls[..];
    ghost var done: seq<GenericAcl> := [];
    var index := 0;
    while index < acls.Length
      invariant 0 <= index <= acls.Length
      invariant done == MarkedPrefix(env, reg, sIndex, sp, before, current, bufferSize, index)
      invariant acls[..index] == done
      invariant forall k :: index <= k < acls.Length ==> acls[k] == before[k]
    {
      var entry := MarkEntry(env, reg, sIndex, sp, acls[index], index == current, bufferSize);
      acls[index] := entry;
      assert acls[..index + 1] == done + [entry];
      done := done + [entry];
      index := index + 1;
    }
    assert acls[..] == acls[..index];
  }

  /** The first `n` entries of the list after try_optimize, for a probe with
      directive `sIndex` and fields `sp`. */
  function MarkedPrefix(env: Env, reg: Registries, sIndex: nat, sp: AclParts, list: seq<GenericAcl>, current: int,
                        bufferSize: nat, n: nat): (r: seq<GenericAcl>)
    requires n <= |list|
    ensures |r| == n
  {
    if n == 0 then []
    else MarkedPrefix(env, reg, sIndex, sp, list, current, bufferSize, n - 1)
         + [Mark(env, reg, sIndex, sp, list[n - 1], n - 1 == current, bufferSize)]
  }

  lemma {:induction false} MarkedPrefixAt(env: Env, reg: Registries, sIndex: nat, sp: AclParts, list: seq<GenericAcl>,
                                          current: int, bufferSize: nat, n: nat, k: nat)
    requires k < n <= |list|
    ensures MarkedPrefix(env, reg, sIndex, sp, list, current, bufferSize, n)[k]
         == Mark(env, reg, sIndex, sp, list[k], k == current, bufferSize)
  {
    if k < n - 1 {
      MarkedPrefixAt(env, reg, sIndex, sp, list, current, bufferSize, n - 1, k);
    }
  }

  /** Marking the whole list entry by entry is try_optimize's result. */
  lemma MarkedPrefixOptimized(env: Env, reg: Registries, sIndex: nat, sp: AclParts, list: seq<GenericAcl>,
                              current: int, bufferSize: nat)
    requires 0 <= current < |list| && sIndex == list[current].directive != DIRECTIVE_NONE
    requires sp == SplitAclSpec(sIndex, list[current].operand)
    ensures MarkedPrefix(env, reg, sIndex, sp, list, current, bufferSize, |list|) == Optimized(env, reg, list, current, bufferSize)
  {
    var m := MarkedPrefix(env, reg, sIndex, sp, list, current, bufferSize, |list|);
    var o := Optimized(env, reg, list, current, bufferSize);
    forall k | 0 <= k < |list| ensures m[k] == o[k] {
      MarkedPrefixAt(env, reg, sIndex, sp, list, current, bufferSize, |list|, k);
    }
  }

  /** try_optimize only ever sets selection flags: directives and operands
      stay, a selected entry stays selected, and the probe itself is
      untouched. */
  lemma OptimizeOnlySelects(env: Env, reg: Registries, list: seq<GenericAcl>, current: int, bufferSize: nat)
    requires current < |list|
    ensures var r := Optimized(env, reg, list, current, bufferSize);
            && (forall i :: 0 <= i < |list| ==>
                  && r[i].directive == list[i].directive
                  && r[i].operand == list[i].operand
                  && (list[i].selected ==> r[i].selected))
            && (0 <= current ==> r[current] == list[current])
  {
  }

  /** An entry try_optimize newly selects passes every test it applies. */
  lemma OptimizeMarkedPasses(env: Env, reg: Registries, list: seq<GenericAcl>, current: int, bufferSize: nat, i: nat)
    requires current < |list| && i < |list|
    requires !list[i].selected && Optimized(env, reg, list, current, bufferSize)[i].selected
    ensures 0 <= current && i != current
    ensures list[current].directive != DIRECTIVE_NONE
    ensures Compatible(list[current].directive, list[i].directive)
    ensures |list[i].operand| < bufferSize
    ensures var sp := SplitAclSpec(list[current].directive, list[current].operand);
            var dp := SplitAclSpec(list[i].directive, list[i].operand);
            && sp.subtype == dp.subtype
            && sp.condition == dp.condition
            && FirstWordCovers(env, reg, list[i].directive, sp.first, dp.first)
            && RestCovers(env, reg, list[i].directive, sp.second, dp.second)
  {
  }

  /** A second try_optimize on the same entry selects nothing more. */
  lemma {:induction false} OptimizeIdempotent(env: Env, reg: Registries, list: seq<GenericAcl>, current: int, bufferSize: nat)
    requires current < |list|
    ensures var r := Optimized(env, reg, list, current, bufferSize);
            Optimized(env, reg, r, current, bufferSize) == r
  {
    var r := Optimized(env, reg, list, current, bufferSize);
    if 0 <= current && list[current].directive != DIRECTIVE_NONE {
      assert r[current] == list[current];
      var r2 := Optimized(env, reg, r, current, bufferSize);
      forall i | 0 <= i < |r| ensures r2[i] == r[i] {
        if i != current && !r[i].selected {
          assert r[i] == list[i];
        }
      }
    }
  }

  /** Read/write access covers both of its halves: an allow_read/write probe
      makes an allow_read and an allow_write line on the same path
      redundant, while the halves do not cover each other. */
  lemma ReadWriteCoversHalves()
    ensures Compatible(DIRECTIVE_ALLOW_READ_WRITE, DIRECTIVE_ALLOW_READ)
    ensures Compatible(DIRECTIVE_ALLOW_READ_WRITE, DIRECTIVE_ALLOW_WRITE)
    ensures !Compatible(DIRECTIVE_ALLOW_READ, DIRECTIVE_ALLOW_WRITE)
    ensures !Compatible(DIRECTIVE_ALLOW_READ, DIRECTIVE_ALLOW_READ_WRITE)
  {
  }
}
