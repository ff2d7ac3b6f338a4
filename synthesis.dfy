/** The later passes of read_domain_and_exception_policy: the records the
    resolver synthesizes (initializer sources and missing ancestors), the
    sort by name, the numbering and the cleared selection. A synthesis step
    whose find_or_assign_new_domain fails calls out_of_memory, which ends the
    program; the model reports that as `aborted`. */
module Synthesis {
  import opened CStrings
  import opened Primitives
  import opened Sorting
  import opened DomainStore
  import opened Exceptions

  /** Some record carries the key. */
  predicate Present(list: seq<DomainInfo>, name: string, isDis: bool, isDd: bool)
  {
    FindDomain(list, name, isDis, isDd) != EOF
  }

  lemma PresentPersists(a: seq<DomainInfo>, b: seq<DomainInfo>, name: string, isDis: bool, isDd: bool)
    requires a <= b && Present(a, name, isDis, isDd)
    ensures Present(b, name, isDis, isDd)
  {
    var k := FindDomain(a, name, isDis, isDd);
    assert b[k] == a[k];
  }

  // ---------------------------------------------------------------
  // Pass 4: initializer source domains
  // ---------------------------------------------------------------

  /** The name assign_domain_initializer_source prints and normalises. */
  function SourceName(env: Env, name: string, program: string): string
  {
    env.normalizeLine(name + " " + program)
  }

  /** assign_domain_initializer_source; None where out_of_memory is called. */
  function AssignSource(env: Env, reg: Registries, list: seq<DomainInfo>, name: string, program: string)
    : (r: Option<seq<DomainInfo>>)
    ensures r.Some? ==> list <= r.value
    ensures r.None? <==> IsDomainInitializer(reg.initializers, name, program).Some?
                         && !Present(list, SourceName(env, name, program), true, false)
                         && !env.isCorrectDomain(SourceName(env, name, program))
  {
    if IsDomainInitializer(reg.initializers, name, program).None? then Some(list)
    else
      var o := AssignOutcome(env, list, SourceName(env, name, program), true, false);
      if o.status == EOF then None else Some(o.list)
  }

  /** assign_domain_initializer_source for each program in turn. */
  function AssignSources(env: Env, reg: Registries, list: seq<DomainInfo>, name: string, programs: seq<string>)
    : (r: Option<seq<DomainInfo>>)
    ensures r.Some? ==> list <= r.value
    decreases |programs|
  {
    if programs == [] then Some(list)
    else match AssignSource(env, reg, list, name, programs[0])
      case None => None
      case Some(l) => AssignSources(env, reg, l, name, programs[1..])
  }

  /** The programs an ACL line stands for: itself, or for "@group" the
      members of the first group of that name (none if there is no such group). */
  function LinePrograms(reg: Registries, line: string): seq<string>
  {
    if |line| > 0 && line[0] == '@' then
      match FindGroup(reg.pathGroups, line[1..])
      case None => []
      case Some(g) => reg.pathGroups[g].members
    else [line]
  }

  function SourcesForLines(env: Env, reg: Registries, list: seq<DomainInfo>, name: string, lines: seq<string>)
    : (r: Option<seq<DomainInfo>>)
    ensures r.Some? ==> list <= r.value
    decreases |lines|
  {
    if lines == [] then Some(list)
    else match AssignSources(env, reg, list, name, LinePrograms(reg, lines[0]))
      case None => None
      case Some(l) => SourcesForLines(env, reg, l, name, lines[1..])
  }

  /** The source pass over the records list0[i..n), starting from `cur`;
      root-length domains are skipped. */
  function SourcesFrom(env: Env, reg: Registries, list0: seq<DomainInfo>, i: nat, n: nat, cur: seq<DomainInfo>)
    : (r: Option<seq<DomainInfo>>)
    requires n <= |list0|
    ensures r.Some? ==> cur <= r.value
    decreases n - i
  {
    if i >= n then Some(cur)
    else if |list0[i].name| == |ROOT_NAME| then SourcesFrom(env, reg, list0, i + 1, n, cur)
    else match SourcesForLines(env, reg, cur, list0[i].name, list0[i].acl)
      case None => None
      case Some(l) => SourcesFrom(env, reg, list0, i + 1, n, l)
  }

  method AssignSourceStep(dp: DomainPolicy, env: Env, reg: Registries, name: string, program: string)
    returns (aborted: bool)
    modifies dp
    ensures if aborted then AssignSource(env, reg, old(dp.list), name, program).None?
            else AssignSource(env, reg, old(dp.list), name, program) == Some(dp.list)
    ensures dp.selected == old(dp.selected)
  {
    aborted := false;
    if IsDomainInitializer(reg.initializers, name, program).Some? {
      var index := dp.FindOrAssignNewDomain(env, SourceName(env, name, program), true, false);
      if index == EOF {
        aborted := true;
      }
    }
  }

  method AssignSourceSteps(dp: DomainPolicy, env: Env, reg: Registries, name: string, programs: seq<string>)
    returns (aborted: bool)
    modifies dp
    ensures if aborted then AssignSources(env, reg, old(dp.list), name, programs).None?
            else AssignSources(env, reg, old(dp.list), name, programs) == Some(dp.list)
    ensures dp.selected == old(dp.selected)
  {
    aborted := false;
    var j := 0;
    while j < |programs|
      invariant 0 <= j <= |programs|
      invariant AssignSources(env, reg, old(dp.list), name, programs) == AssignSources(env, reg, dp.list, name, programs[j..])
      invariant dp.selected == old(dp.selected)
    {
      assert programs[j..][1..] == programs[j + 1..];
      aborted := AssignSourceStep(dp, env, reg, name, programs[j]);
      if aborted {
        return;
      }
      j := j + 1;
    }
  }

  /** The ACL loop of the source pass for one domain. */
  method SourcesForDomain(dp: DomainPolicy, env: Env, reg: Registries, name: string, acl: seq<string>)
    returns (aborted: bool)
    modifies dp
    ensures if aborted then SourcesForLines(env, reg, old(dp.list), name, acl).None?
            else SourcesForLines(env, reg, old(dp.list), name, acl) == Some(dp.list)
    ensures dp.selected == old(dp.selected)
  {
    aborted := false;
    var i := 0;
    while i < |acl|
      invariant 0 <= i <= |acl|
      invariant SourcesForLines(env, reg, old(dp.list), name, acl) == SourcesForLines(env, reg, dp.list, name, acl[i..])
      invariant dp.selected == old(dp.selected)
    {
      assert acl[i..][1..] == acl[i + 1..];
      aborted := SourcesForLine(dp, env, reg, name, acl[i]);
      if aborted {
        return;
      }
      i := i + 1;
    }
  }

  /** One ACL line of the source pass: a program, or an "@group" expanded
      through find_path_group. */
  method SourcesForLine(dp: DomainPolicy, env: Env, reg: Registries, name: string, line: string)
    returns (aborted: bool)
    modifies dp
    ensures if aborted then AssignSources(env, reg, old(dp.list), name, LinePrograms(reg, line)).None?
            else AssignSources(env, reg, old(dp.list), name, LinePrograms(reg, line)) == Some(dp.list)
    ensures dp.selected == old(dp.selected)
  {
    aborted := false;
    if |line| == 0 || line[0] != '@' {
      aborted := AssignSourceStep(dp, env, reg, name, line);
      assert AssignSources(env, reg, old(dp.list), name, [line]) == AssignSource(env, reg, old(dp.list), name, line) by {
        assert [line][1..] == [];
      }
    } else {
      var g := FindGroup(reg.pathGroups, line[1..]);
      if g.Some? {
        aborted := AssignSourceSteps(dp, env, reg, name, reg.pathGroups[g.value].members);
      }
    }
  }

  method SynthesizeSources(dp: DomainPolicy, env: Env, reg: Registries, maxIndex: nat) returns (aborted: bool)
    requires maxIndex <= |dp.list|
    modifies dp
    ensures if aborted then SourcesFrom(env, reg, old(dp.list), 0, maxIndex, old(dp.list)).None?
            else SourcesFrom(env, reg, old(dp.list), 0, maxIndex, old(dp.list)) == Some(dp.list)
    ensures dp.selected == old(dp.selected)
  {
    ghost var list0 := dp.list;
    aborted := false;
    var index := 0;
    while index < maxIndex
      invariant 0 <= index <= maxIndex
      invariant list0 <= dp.list
      invariant SourcesFrom(env, reg, list0, 0, maxIndex, list0) == SourcesFrom(env, reg, list0, index, maxIndex, dp.list)
      invariant dp.selected == old(dp.selected)
    {
      var d := dp.list[index];
      assert d == list0[index];
      if |d.name| != |ROOT_NAME| {
        aborted := SourcesForDomain(dp, env, reg, d.name, d.acl);
        if aborted {
          return;
        }
      }
      index := index + 1;
    }
  }

  /** The source for (name, program) exists once the initializer applies. */
  predicate Sourced(env: Env, reg: Registries, list: seq<DomainInfo>, name: string, program: string)
  {
    IsDomainInitializer(reg.initializers, name, program).Some? ==> Present(list, SourceName(env, name, program), true, false)
  }

  predicate LineSourced(env: Env, reg: Registries, list: seq<DomainInfo>, name: string, line: string)
  {
    forall m :: 0 <= m < |LinePrograms(reg, line)| ==> Sourced(env, reg, list, name, LinePrograms(reg, line)[m])
  }

  /** Every program a non-root-length domain's ACL names has its source. */
  predicate DomainSourced(env: Env, reg: Registries, list: seq<DomainInfo>, d: DomainInfo)
  {
    |d.name| != |ROOT_NAME| ==> forall j :: 0 <= j < |d.acl| ==> LineSourced(env, reg, list, d.name, d.acl[j])
  }

  lemma SourcedPersists(env: Env, reg: Registries, a: seq<DomainInfo>, b: seq<DomainInfo>, name: string, program: string)
    requires a <= b && Sourced(env, reg, a, name, program)
    ensures Sourced(env, reg, b, name, program)
  {
    if IsDomainInitializer(reg.initializers, name, program).Some? {
      PresentPersists(a, b, SourceName(env, name, program), true, false);
    }
  }

  lemma LineSourcedPersists(env: Env, reg: Registries, a: seq<DomainInfo>, b: seq<DomainInfo>, name: string, line: string)
    requires a <= b && LineSourced(env, reg, a, name, line)
    ensures LineSourced(env, reg, b, name, line)
  {
    forall m | 0 <= m < |LinePrograms(reg, line)| ensures Sourced(env, reg, b, name, LinePrograms(reg, line)[m]) {
      SourcedPersists(env, reg, a, b, name, LinePrograms(reg, line)[m]);
    }
  }

  lemma DomainSourcedPersists(env: Env, reg: Registries, a: seq<DomainInfo>, b: seq<DomainInfo>, d: DomainInfo)
    requires a <= b && DomainSourced(env, reg, a, d)
    ensures DomainSourced(env, reg, b, d)
  {
    if |d.name| != |ROOT_NAME| {
      forall j | 0 <= j < |d.acl| ensures LineSourced(env, reg, b, d.name, d.acl[j]) {
        LineSourcedPersists(env, reg, a, b, d.name, d.acl[j]);
      }
    }
  }

  lemma AssignSourceSourced(env: Env, reg: Registries, list: seq<DomainInfo>, name: string, program: string)
    requires AssignSource(env, reg, list, name, program).Some?
    ensures Sourced(env, reg, AssignSource(env, reg, list, name, program).value, name, program)
  {
    var key := SourceName(env, name, program);
    if IsDomainInitializer(reg.initializers, name, program).Some? {
      var o := AssignOutcome(env, list, key, true, false);
      assert HasKey(o.list[o.status], key, true, false);
    }
  }

  lemma {:induction false} AssignSourcesSourced(env: Env, reg: Registries, list: seq<DomainInfo>, name: string, programs: seq<string>)
    requires AssignSources(env, reg, list, name, programs).Some?
    ensures forall m :: 0 <= m < |programs| ==>
      Sourced(env, reg, AssignSources(env, reg, list, name, programs).value, name, programs[m])
    decreases |programs|
  {
    if programs != [] {
      var l := AssignSource(env, reg, list, name, programs[0]).value;
      var r := AssignSources(env, reg, list, name, programs).value;
      AssignSourceSourced(env, reg, list, name, programs[0]);
      SourcedPersists(env, reg, l, r, name, programs[0]);
      AssignSourcesSourced(env, reg, l, name, programs[1..]);
      forall m | 0 <= m < |programs| ensures Sourced(env, reg, r, name, programs[m]) {
        if m > 0 {
          assert programs[m] == programs[1..][m - 1];
        }
      }
    }
  }

  lemma {:induction false} SourcesForLinesSourced(env: Env, reg: Registries, list: seq<DomainInfo>, name: string, lines: seq<string>)
    requires SourcesForLines(env, reg, list, name, lines).Some?
    ensures forall j :: 0 <= j < |lines| ==>
      LineSourced(env, reg, SourcesForLines(env, reg, list, name, lines).value, name, lines[j])
    decreases |lines|
  {
    if lines != [] {
      var l := AssignSources(env, reg, list, name, LinePrograms(reg, lines[0])).value;
      var r := SourcesForLines(env, reg, list, name, lines).value;
      AssignSourcesSourced(env, reg, list, name, LinePrograms(reg, lines[0]));
      LineSourcedPersists(env, reg, l, r, name, lines[0]);
      SourcesForLinesSourced(env, reg, l, name, lines[1..]);
      forall j | 0 <= j < |lines| ensures LineSourced(env, reg, r, name, lines[j]) {
        if j > 0 {
          assert lines[j] == lines[1..][j - 1];
        }
      }
    }
  }

  /** After the source pass, every record that existed before it has its
      initializer sources: for each program its ACL names (directly or via a
      path group) that an initializer applies to under it, the redirect
      record "<domain> <program>" with is_dis set is present. */
  lemma {:induction false} SourcesFromSourced(env: Env, reg: Registries, list0: seq<DomainInfo>, i: nat, n: nat, cur: seq<DomainInfo>)
    requires n <= |list0|
    requires SourcesFrom(env, reg, list0, i, n, cur).Some?
    ensures forall k :: i <= k < n ==> DomainSourced(env, reg, SourcesFrom(env, reg, list0, i, n, cur).value, list0[k])
    decreases n - i
  {
    if i < n {
      var d := list0[i];
      var next := if |d.name| == |ROOT_NAME| then cur else SourcesForLines(env, reg, cur, d.name, d.acl).value;
      if |d.name| != |ROOT_NAME| {
        SourcesForLinesSourced(env, reg, cur, d.name, d.acl);
        DomainSourcedPersists(env, reg, next, SourcesFrom(env, reg, list0, i, n, cur).value, d);
      }
      SourcesFromSourced(env, reg, list0, i + 1, n, next);
    }
  }

  lemma {:induction false} AssignSourcesKeepKeysUnique(env: Env, reg: Registries, list: seq<DomainInfo>, name: string, programs: seq<string>)
    requires UniqueKeys(list) && AssignSources(env, reg, list, name, programs).Some?
    ensures UniqueKeys(AssignSources(env, reg, list, name, programs).value)
    decreases |programs|
  {
    if programs != [] {
      if IsDomainInitializer(reg.initializers, name, programs[0]).Some? {
        AssignKeepsKeysUnique(env, list, SourceName(env, name, programs[0]), true, false);
      }
      var l := AssignSource(env, reg, list, name, programs[0]).value;
      AssignSourcesKeepKeysUnique(env, reg, l, name, programs[1..]);
    }
  }

  lemma {:induction false} SourcesForLinesKeepKeysUnique(env: Env, reg: Registries, list: seq<DomainInfo>, name: string, lines: seq<string>)
    requires UniqueKeys(list) && SourcesForLines(env, reg, list, name, lines).Some?
    ensures UniqueKeys(SourcesForLines(env, reg, list, name, lines).value)
    decreases |lines|
  {
    if lines != [] {
      AssignSourcesKeepKeysUnique(env, reg, list, name, LinePrograms(reg, lines[0]));
      var l := AssignSources(env, reg, list, name, LinePrograms(reg, lines[0])).value;
      SourcesForLinesKeepKeysUnique(env, reg, l, name, lines[1..]);
    }
  }

  /** The source pass never creates a second record with an existing key. */
  lemma {:induction false} SourcesFromKeepKeysUnique(env: Env, reg: Registries, list0: seq<DomainInfo>, i: nat, n: nat, cur: seq<DomainInfo>)
    requires n <= |list0|
    requires UniqueKeys(cur) && SourcesFrom(env, reg, list0, i, n, cur).Some?
    ensures UniqueKeys(SourcesFrom(env, reg, list0, i, n, cur).value)
    decreases n - i
  {
    if i < n {
      var d := list0[i];
      if |d.name| == |ROOT_NAME| {
        SourcesFromKeepKeysUnique(env, reg, list0, i + 1, n, cur);
      } else {
        SourcesForLinesKeepKeysUnique(env, reg, cur, d.name, d.acl);
        var l := SourcesForLines(env, reg, cur, d.name, d.acl).value;
        SourcesFromKeepKeysUnique(env, reg, list0, i + 1, n, l);
      }
    }
  }

  // ---------------------------------------------------------------
  // Pass 5: missing ancestors
  // ---------------------------------------------------------------

  /** The parent loop for one name: each prefix before a space, longest
      first, that has no plain record gets an is_dd record. */
  function EnsureAncestors(env: Env, list: seq<DomainInfo>, s: string): (r: Option<seq<DomainInfo>>)
    ensures r.Some? ==> list <= r.value
    decreases |s|
  {
    match LastIndexOf(s, ' ')
    case None => Some(list)
    case Some(p) =>
      var parent := s[..p];
      if Present(list, parent, false, false) then EnsureAncestors(env, list, parent)
      else
        var o := AssignOutcome(env, list, parent, false, true);
        if o.status == EOF then None else EnsureAncestors(env, o.list, parent)
  }

  function ParentsFrom(env: Env, list0: seq<DomainInfo>, i: nat, n: nat, cur: seq<DomainInfo>)
    : (r: Option<seq<DomainInfo>>)
    requires n <= |list0|
    ensures r.Some? ==> cur <= r.value
    decreases n - i
  {
    if i >= n then Some(cur)
    else match EnsureAncestors(env, cur, list0[i].name)
      case None => None
      case Some(l) => ParentsFrom(env, list0, i + 1, n, l)
  }

  method EnsureAncestorsOf(dp: DomainPolicy, env: Env, name: string) returns (aborted: bool)
    modifies dp
    ensures if aborted then EnsureAncestors(env, old(dp.list), name).None?
            else EnsureAncestors(env, old(dp.list), name) == Some(dp.list)
    ensures dp.selected == old(dp.selected)
  {
    aborted := false;
    var buf := name;
    while true
      invariant EnsureAncestors(env, old(dp.list), name) == EnsureAncestors(env, dp.list, buf)
      invariant dp.selected == old(dp.selected)
      decreases |buf|
    {
      var cp := LastIndexOf(buf, ' ');
      if cp.None? {
        return;
      }
      buf := buf[..cp.value];
      if FindDomain(dp.list, buf, false, false) != EOF {
        continue;
      }
      var index := dp.FindOrAssignNewDomain(env, buf, false, true);
      if index == EOF {
        return true;
      }
    }
  }

  method SynthesizeParents(dp: DomainPolicy, env: Env, maxIndex: nat) returns (aborted: bool)
    requires maxIndex <= |dp.list|
    modifies dp
    ensures if aborted then ParentsFrom(env, old(dp.list), 0, maxIndex, old(dp.list)).None?
            else ParentsFrom(env, old(dp.list), 0, maxIndex, old(dp.list)) == Some(dp.list)
    ensures dp.selected == old(dp.selected)
  {
    ghost var list0 := dp.list;
    aborted := false;
    var index := 0;
    while index < maxIndex
      invariant 0 <= index <= maxIndex
      invariant list0 <= dp.list
      invariant ParentsFrom(env, list0, 0, maxIndex, list0) == ParentsFrom(env, list0, index, maxIndex, dp.list)
      invariant dp.selected == old(dp.selected)
    {
      assert dp.list[index] == list0[index];
      aborted := EnsureAncestorsOf(dp, env, dp.list[index].name);
      if aborted {
        return;
      }
      index := index + 1;
    }
  }

  /** A record, plain or synthesized, with that name. */
  predicate HasAncestor(list: seq<DomainInfo>, s: string)
  {
    Present(list, s, false, false) || Present(list, s, false, true)
  }

  /** Every prefix of `s` that ends before a space has a record. */
  predicate AncestorsPresent(list: seq<DomainInfo>, s: string)
  {
    forall q :: 0 <= q < |s| && s[q] == ' ' ==> HasAncestor(list, s[..q])
  }

  lemma AncestorsPersist(a: seq<DomainInfo>, b: seq<DomainInfo>, s: string)
    requires a <= b && AncestorsPresent(a, s)
    ensures AncestorsPresent(b, s)
  {
    forall q | 0 <= q < |s| && s[q] == ' ' ensures HasAncestor(b, s[..q]) {
      if Present(a, s[..q], false, false) {
        PresentPersists(a, b, s[..q], false, false);
      } else {
        PresentPersists(a, b, s[..q], false, true);
      }
    }
  }

  lemma {:induction false} EnsureAncestorsPresent(env: Env, list: seq<DomainInfo>, s: string)
    requires EnsureAncestors(env, list, s).Some?
    ensures AncestorsPresent(EnsureAncestors(env, list, s).value, s)
    decreases |s|
  {
    var r := EnsureAncestors(env, list, s).value;
    match LastIndexOf(s, ' ')
    case None =>
    case Some(p) =>
      var parent := s[..p];
      var l := if Present(list, parent, false, false) then list
               else AssignOutcome(env, list, parent, false, true).list;
      assert HasAncestor(l, parent) by {
        if !Present(list, parent, false, false) {
          var o := AssignOutcome(env, list, parent, false, true);
          assert HasKey(o.list[o.status], parent, false, true);
        }
      }
      assert EnsureAncestors(env, l, parent) == Some(r);
      EnsureAncestorsPresent(env, l, parent);
      forall q | 0 <= q < |s| && s[q] == ' ' ensures HasAncestor(r, s[..q]) {
        if q == p {
          if Present(l, parent, false, false) {
            PresentPersists(l, r, parent, false, false);
          } else {
            PresentPersists(l, r, parent, false, true);
          }
        } else {
          NoSpaceAfter(s, p);
          assert parent[q] == ' ' && parent[..q] == s[..q];
        }
      }
  }

  lemma NoSpaceAfter(s: string, p: nat)
    requires p < |s| && ' ' !in s[p + 1..]
    ensures forall j :: p < j < |s| ==> s[j] != ' '
  {
    forall j | p < j < |s| ensures s[j] != ' ' {
      assert s[j] == s[p + 1..][j - p - 1];
    }
  }

  /** After the parent pass, every record that existed before it has all its
      ancestors: each prefix of its name before a space names a record. */
  lemma {:induction false} ParentsFromPresent(env: Env, list0: seq<DomainInfo>, i: nat, n: nat, cur: seq<DomainInfo>)
    requires n <= |list0|
    requires ParentsFrom(env, list0, i, n, cur).Some?
    ensures forall k :: i <= k < n ==> AncestorsPresent(ParentsFrom(env, list0, i, n, cur).value, list0[k].name)
    decreases n - i
  {
    if i < n {
      var r := ParentsFrom(env, list0, i, n, cur).value;
      var l := EnsureAncestors(env, cur, list0[i].name).value;
      EnsureAncestorsPresent(env, cur, list0[i].name);
      AncestorsPersist(l, r, list0[i].name);
      ParentsFromPresent(env, list0, i + 1, n, l);
    }
  }

  lemma {:induction false} EnsureAncestorsKeepKeysUnique(env: Env, list: seq<DomainInfo>, s: string)
    requires UniqueKeys(list) && EnsureAncestors(env, list, s).Some?
    ensures UniqueKeys(EnsureAncestors(env, list, s).value)
    decreases |s|
  {
    match LastIndexOf(s, ' ')
    case None =>
    case Some(p) =>
      var parent := s[..p];
      if Present(list, parent, false, false) {
        EnsureAncestorsKeepKeysUnique(env, list, parent);
      } else {
        AssignKeepsKeysUnique(env, list, parent, false, true);
        EnsureAncestorsKeepKeysUnique(env, AssignOutcome(env, list, parent, false, true).list, parent);
      }
  }

  /** The parent pass never creates a second record with an existing key. */
  lemma {:induction false} ParentsFromKeepKeysUnique(env: Env, list0: seq<DomainInfo>, i: nat, n: nat, cur: seq<DomainInfo>)
    requires n <= |list0|
    requires UniqueKeys(cur) && ParentsFrom(env, list0, i, n, cur).Some?
    ensures UniqueKeys(ParentsFrom(env, list0, i, n, cur).value)
    decreases n - i
  {
    if i < n {
      EnsureAncestorsKeepKeysUnique(env, cur, list0[i].name);
      ParentsFromKeepKeysUnique(env, list0, i + 1, n, EnsureAncestors(env, cur, list0[i].name).value);
    }
  }

  // ---------------------------------------------------------------
  // Pass 6 and 7: sort by name, number
  // ---------------------------------------------------------------

  /** The qsort by domain name (the comparator's tie order is not modelled). */
  method SortByName(dp: DomainPolicy)
    modifies dp
    ensures dp.list == SortByKey(old(dp.list), NameOf)
    ensures SortedBy(dp.list, NameOf)
    ensures multiset(dp.list) == multiset(old(dp.list))
    ensures dp.selected == old(dp.selected)
  {
    SortByKeySorted(dp.list, NameOf);
    dp.list := SortByKey(dp.list, NameOf);
  }

  /** Records left without a number: synthesized ancestors and initializer sources. */
  predicate Unnumbered(d: DomainInfo)
  {
    d.isDd || d.isDis
  }

  function NumberedCount(list: seq<DomainInfo>): (c: nat)
    ensures c <= |list|
  {
    if list == [] then 0
    else NumberedCount(list[..|list| - 1]) + (if Unnumbered(list[|list| - 1]) then 0 else 1)
  }

  /** The record's number: -1, or the count of numbered records before it. */
  function NumberAt(list: seq<DomainInfo>, k: nat): int
    requires k < |list|
  {
    if Unnumbered(list[k]) then -1 else NumberedCount(list[..k])
  }

  function Numbering(list: seq<DomainInfo>): (r: seq<DomainInfo>)
    ensures |r| == |list|
  {
    seq(|list|, k requires 0 <= k < |list| => list[k].(number := NumberAt(list, k)))
  }

  /** The numbering loop; returns unnumbered_domain_count. */
  method AssignNumbers(dp: DomainPolicy) returns (unnumbered: nat)
    modifies dp
    ensures dp.list == Numbering(old(dp.list))
    ensures unnumbered == |dp.list| - NumberedCount(old(dp.list))
    ensures dp.selected == old(dp.selected)
  {
    ghost var list0 := dp.list;
    var number := 0;
    unnumbered := 0;
    var index := 0;
    while index < |dp.list|
      invariant 0 <= index <= |dp.list| == |list0|
      invariant number == NumberedCount(list0[..index]) && unnumbered == index - number
      invariant forall k :: 0 <= k < index ==> dp.list[k] == list0[k].(number := NumberAt(list0, k))
      invariant forall k :: index <= k < |dp.list| ==> dp.list[k] == list0[k]
      invariant dp.selected == old(dp.selected)
    {
      assert list0[..index + 1][..index] == list0[..index];
      var d := dp.list[index];
      if d.isDd || d.isDis {
        dp.list := dp.list[index := d.(number := -1)];
        unnumbered := unnumbered + 1;
      } else {
        dp.list := dp.list[index := d.(number := number)];
        number := number + 1;
      }
      index := index + 1;
    }
    assert list0[..index] == list0;
  }

  lemma {:induction false} NumberedCountGrows(list: seq<DomainInfo>, a: nat, b: nat)
    requires a < b <= |list| && !Unnumbered(list[a])
    ensures NumberedCount(list[..a]) < NumberedCount(list[..b])
    decreases b
  {
    assert list[..b][..b - 1] == list[..b - 1];
    if a < b - 1 {
      NumberedCountGrows(list, a, b - 1);
    }
  }

  lemma {:induction false} NumberingOnto(list: seq<DomainInfo>, m: nat)
    requires m < NumberedCount(list)
    ensures exists k :: 0 <= k < |list| && !Unnumbered(list[k]) && NumberedCount(list[..k]) == m
    decreases |list|
  {
    var init := list[..|list| - 1];
    if m < NumberedCount(init) {
      NumberingOnto(init, m);
      var k :| 0 <= k < |init| && !Unnumbered(init[k]) && NumberedCount(init[..k]) == m;
      assert init[..k] == list[..k];
      assert list[k] == init[k];
    } else {
      assert list[..|list| - 1] == init;
      assert !Unnumbered(list[|list| - 1]);
    }
  }

  predicate NumberTaken(r: seq<DomainInfo>, m: int)
  {
    exists k :: 0 <= k < |r| && r[k].number == m
  }

  /** The numbering is dense and follows the list order: synthesized records
      get -1, the others get 0, 1, 2, ... in order, each value exactly once,
      and no other field changes. */
  lemma NumberingDense(list: seq<DomainInfo>)
    ensures var r := Numbering(list);
      && (forall k :: 0 <= k < |list| ==> r[k] == list[k].(number := r[k].number))
      && (forall k :: 0 <= k < |list| && Unnumbered(list[k]) ==> r[k].number == -1)
      && (forall k :: 0 <= k < |list| && !Unnumbered(list[k]) ==> 0 <= r[k].number < NumberedCount(list))
      && (forall a, b :: 0 <= a < b < |list| && !Unnumbered(list[a]) && !Unnumbered(list[b]) ==> r[a].number < r[b].number)
      && (forall m :: 0 <= m < NumberedCount(list) ==> NumberTaken(r, m))
  {
    var r := Numbering(list);
    forall k | 0 <= k < |list| && !Unnumbered(list[k]) ensures r[k].number < NumberedCount(list) {
      assert list[..|list|] == list;
      NumberedCountGrows(list, k, |list|);
    }
    forall a, b | 0 <= a < b < |list| && !Unnumbered(list[a]) && !Unnumbered(list[b]) ensures r[a].number < r[b].number {
      NumberedCountGrows(list, a, b);
    }
    forall m | 0 <= m < NumberedCount(list) ensures NumberTaken(r, m) {
      NumberingOnto(list, m);
      var k :| 0 <= k < |list| && !Unnumbered(list[k]) && NumberedCount(list[..k]) == m;
      assert r[k].number == m;
    }
  }

  /** The selection bitmap is reallocated to the new length and cleared. */
  method ClearSelection(dp: DomainPolicy)
    modifies dp
    ensures |dp.selected| == |dp.list| && forall k :: 0 <= k < |dp.selected| ==> !dp.selected[k]
    ensures dp.list == old(dp.list)
  {
    dp.selected := seq(|dp.list|, _ => false);
  }
}
