/** read_domain_and_exception_policy: reset both policies, load the exception
    policy and the domain list, then run the resolver passes in order. The
    two files arrive as sequences of lines; a file that cannot be opened is
    an empty sequence. */
module PolicyLoader {
  import opened CStrings
  import opened Primitives
  import opened Sorting
  import opened DomainStore
  import opened DomainScript
  import opened Exceptions
  import opened Resolver
  import opened Synthesis

  const KEYWORD_EXECUTE_HANDLER: string := "execute_handler "
  const KEYWORD_DENIED_EXECUTE_HANDLER: string := "denied_execute_handler "
  const KEYWORD_ALLOW_EXECUTE: string := "allow_execute "

  // ---------------------------------------------------------------
  // The domain-list loop
  // ---------------------------------------------------------------

  /** The length of the execute prefix the line starts with: "allow_execute "
      or one of the numeric forms "1 ", "3 ", "5 ", "7 ", tried in that order. */
  function ExecutePrefix(line: string): (r: Option<nat>)
    ensures r.Some? ==> r.value <= |line|
    ensures r.Some? <==> StartsWith(line, KEYWORD_ALLOW_EXECUTE) || StartsWith(line, "1 ") || StartsWith(line, "3 ")
                         || StartsWith(line, "5 ") || StartsWith(line, "7 ")
  {
    if StartsWith(line, KEYWORD_ALLOW_EXECUTE) then Some(|KEYWORD_ALLOW_EXECUTE|)
    else if StartsWith(line, "1 ") || StartsWith(line, "3 ") || StartsWith(line, "5 ") || StartsWith(line, "7 ") then Some(2)
    else None
  }

  /** The text up to the first space. */
  function FirstField(s: string): (r: string)
    ensures r <= s && ' ' !in r
    ensures |r| < |s| ==> s[|r|] == ' '
  {
    match FirstIndexOf(s, ' ')
    case None => s
    case Some(k) => s[..k]
  }

  /** What an execute line may contribute: a group reference or a program path. */
  predicate ExecuteTarget(env: Env, x: string)
  {
    (|x| > 0 && x[0] == '@') || env.isProgramPath(x)
  }

  function StoreLine(st: ScriptState, x: string): ScriptState
  {
    ScriptState(AddEntryOutcome(st.list, x, st.index).list, st.index)
  }

  /** One line of the domain-list loop: a domain name selects (creating if
      needed) its record; other lines before any valid domain are skipped;
      execute handlers keep their text, execute permissions keep their first
      field when it is a group or a program; use_profile= sets the profile. */
  function ApplyListLine(env: Env, st: ScriptState, line: string): (r: ScriptState)
    requires ValidState(st)
    ensures ValidState(r)
  {
    if env.isDomainDef(line) then
      var o := AssignOutcome(env, st.list, line, false, false);
      ScriptState(o.list, o.status)
    else if st.index == EOF then st
    else if StartsWith(line, KEYWORD_EXECUTE_HANDLER) then StoreLine(st, line[|KEYWORD_EXECUTE_HANDLER|..])
    else if StartsWith(line, KEYWORD_DENIED_EXECUTE_HANDLER) then StoreLine(st, line[|KEYWORD_DENIED_EXECUTE_HANDLER|..])
    else match ExecutePrefix(line)
      case Some(n) =>
        var x := FirstField(line[n..]);
        if ExecuteTarget(env, x) then StoreLine(st, x) else st
      case None =>
        match ParseUseProfile(line)
        case Some(p) => ScriptState(st.list[st.index := st.list[st.index].(profile := p % 256)], st.index)
        case None => st
  }

  function ApplyListScript(env: Env, st: ScriptState, lines: seq<string>): (r: ScriptState)
    requires ValidState(st)
    ensures ValidState(r)
  {
    if lines == [] then st
    else ApplyListLine(env, ApplyListScript(env, st, lines[..|lines| - 1]), lines[|lines| - 1])
  }

  method ListLine(dp: DomainPolicy, env: Env, index0: int, line: string) returns (index: int)
    requires ValidState(ScriptState(dp.list, index0))
    modifies dp
    ensures ScriptState(dp.list, index) == ApplyListLine(env, ScriptState(old(dp.list), index0), line)
    ensures dp.selected == old(dp.selected)
  {
    if env.isDomainDef(line) {
      index := dp.FindOrAssignNewDomain(env, line, false, false);
      return;
    }
    index := index0;
    if index == EOF {
      return;
    }
    if StartsWith(line, KEYWORD_EXECUTE_HANDLER) {
      var _ := dp.AddStringEntry(line[|KEYWORD_EXECUTE_HANDLER|..], index);
    } else if StartsWith(line, KEYWORD_DENIED_EXECUTE_HANDLER) {
      var _ := dp.AddStringEntry(line[|KEYWORD_DENIED_EXECUTE_HANDLER|..], index);
    } else {
      var n := ExecutePrefix(line);
      if n.Some? {
        var cp := line[n.value..];
        var sp := FirstIndexOf(cp, ' ');
        if sp.Some? {
          cp := cp[..sp.value];
        }
        if (|cp| > 0 && cp[0] == '@') || env.isProgramPath(cp) {
          var _ := dp.AddStringEntry(cp, index);
        }
      } else {
        var profile := ParseUseProfile(line);
        if profile.Some? {
          dp.list := dp.list[index := dp.list[index].(profile := profile.value % 256)];
        }
      }
    }
  }

  /** The domain-list loop of read_domain_and_exception_policy. */
  method LoadDomainList(dp: DomainPolicy, env: Env, lines: seq<string>)
    modifies dp
    ensures dp.list == ApplyListScript(env, ScriptState(old(dp.list), EOF), lines).list
    ensures dp.selected == old(dp.selected)
  {
    var index := EOF;
    var k := 0;
    while k < |lines|
      invariant 0 <= k <= |lines|
      invariant ScriptState(dp.list, index) == ApplyListScript(env, ScriptState(old(dp.list), EOF), lines[..k])
      invariant dp.selected == old(dp.selected)
    {
      assert lines[..k + 1][..k] == lines[..k];
      index := ListLine(dp, env, index, lines[k]);
      k := k + 1;
    }
    assert lines[..k] == lines;
  }

  /** The store invariant the loader keeps: one record per key, and no ACL
      line twice in a record. */
  predicate StoreInvariant(list: seq<DomainInfo>)
  {
    UniqueKeys(list) && forall k :: 0 <= k < |list| ==> NoDuplicates(list[k].acl)
  }

  lemma ListLineKeepsInvariant(env: Env, st: ScriptState, line: string)
    requires ValidState(st) && StoreInvariant(st.list)
    ensures StoreInvariant(ApplyListLine(env, st, line).list)
  {
    if env.isDomainDef(line) {
      AssignKeepsKeysUnique(env, st.list, line, false, false);
      var o := AssignOutcome(env, st.list, line, false, false);
      forall k | 0 <= k < |o.list| ensures NoDuplicates(o.list[k].acl) {
        if k >= |st.list| {
          assert o.list[k] == NewDomain(line, false, false);
        }
      }
    } else if st.index != EOF {
      var i := st.index;
      if StartsWith(line, KEYWORD_EXECUTE_HANDLER) {
        StoreKeepsInvariant(st.list, line[|KEYWORD_EXECUTE_HANDLER|..], i);
      } else if StartsWith(line, KEYWORD_DENIED_EXECUTE_HANDLER) {
        StoreKeepsInvariant(st.list, line[|KEYWORD_DENIED_EXECUTE_HANDLER|..], i);
      } else if ExecutePrefix(line).Some? {
        StoreKeepsInvariant(st.list, FirstField(line[ExecutePrefix(line).value..]), i);
      } else if ParseUseProfile(line).Some? {
        RecordKeepsInvariant(st.list, i, st.list[i].(profile := ParseUseProfile(line).value % 256));
      }
    }
  }

  /** Replacing one record by one with the same key and distinct ACL lines
      keeps the store invariant. */
  lemma RecordKeepsInvariant(list: seq<DomainInfo>, i: nat, d: DomainInfo)
    requires StoreInvariant(list) && i < |list|
    requires d.name == list[i].name && d.isDis == list[i].isDis && d.isDd == list[i].isDd
    requires NoDuplicates(d.acl)
    ensures StoreInvariant(list[i := d])
  {
    var r := list[i := d];
    forall a, b | 0 <= a < b < |r| ensures !HasKey(r[b], r[a].name, r[a].isDis, r[a].isDd) {
      assert !HasKey(list[b], list[a].name, list[a].isDis, list[a].isDd);
    }
  }

  /** Adding an ACL line to the selected record keeps the store invariant. */
  lemma StoreKeepsInvariant(list: seq<DomainInfo>, x: string, i: nat)
    requires StoreInvariant(list) && i < |list|
    ensures StoreInvariant(AddEntryOutcome(list, x, i).list)
  {
    var o := AddEntryOutcome(list, x, i);
    if o.status == 0 {
      assert o.list == list[i := o.list[i]];
      RecordKeepsInvariant(list, i, o.list[i]);
    }
  }

  /** Loading a domain list keeps keys unique and ACL lines distinct. */
  lemma {:induction false} ListScriptKeepsInvariant(env: Env, st: ScriptState, lines: seq<string>)
    requires ValidState(st) && StoreInvariant(st.list)
    ensures StoreInvariant(ApplyListScript(env, st, lines).list)
    decreases |lines|
  {
    if lines != [] {
      ListScriptKeepsInvariant(env, st, lines[..|lines| - 1]);
      ListLineKeepsInvariant(env, ApplyListScript(env, st, lines[..|lines| - 1]), lines[|lines| - 1]);
    }
  }

  /** "allow_execute <program> <rest>" under a selected domain stores just
      the program, when it is a program path. */
  lemma ExecuteLineStoresProgram(env: Env, st: ScriptState, program: string, rest: string)
    requires ValidState(st) && st.index != EOF
    requires program != "" && ' ' !in program && env.isProgramPath(program)
    requires !env.isDomainDef(KEYWORD_ALLOW_EXECUTE + program + " " + rest)
    ensures var r := ApplyListLine(env, st, KEYWORD_ALLOW_EXECUTE + program + " " + rest);
            && r.index == st.index
            && program in r.list[st.index].acl
            && forall k :: 0 <= k < |st.list| && k != st.index ==> r.list[k] == st.list[k]
  {
    var line := KEYWORD_ALLOW_EXECUTE + program + " " + rest;
    assert line[0] == 'a';
    assert !StartsWith(line, KEYWORD_EXECUTE_HANDLER) && !StartsWith(line, KEYWORD_DENIED_EXECUTE_HANDLER);
    assert StartsWith(line, KEYWORD_ALLOW_EXECUTE);
    var tail := line[|KEYWORD_ALLOW_EXECUTE|..];
    assert tail == program + " " + rest;
    assert tail[|program|] == ' ' && tail[..|program|] == program;
    assert FirstIndexOf(tail, ' ') == Some(|program|);
  }

  /** "execute_handler <path>" under a selected domain stores the path. */
  lemma HandlerLineStoresPath(env: Env, st: ScriptState, path: string)
    requires ValidState(st) && st.index != EOF && path != ""
    requires !env.isDomainDef(KEYWORD_EXECUTE_HANDLER + path)
    ensures var r := ApplyListLine(env, st, KEYWORD_EXECUTE_HANDLER + path);
            r.index == st.index && path in r.list[st.index].acl
  {
    var line := KEYWORD_EXECUTE_HANDLER + path;
    assert StartsWith(line, KEYWORD_EXECUTE_HANDLER) && line[|KEYWORD_EXECUTE_HANDLER|..] == path;
  }

  // ---------------------------------------------------------------
  // The whole of read_domain_and_exception_policy
  // ---------------------------------------------------------------

  /** The exception registries after loading the exception file. */
  function LoadedRegistries(env: Env, exceptionLines: seq<string>): Registries
  {
    ApplyExceptionScript(env, Registries([], [], [], []), exceptionLines)
  }

  /** The domain list after the root record and the domain-list file. */
  function LoadedList(env: Env, domainLines: seq<string>): seq<DomainInfo>
  {
    var root := AssignOutcome(env, [], ROOT_NAME, false, false).list;
    ApplyListScript(env, ScriptState(root, EOF), domainLines).list
  }

  /** The three marking passes. */
  function Marked3(reg: Registries, loaded: seq<DomainInfo>): (r: seq<DomainInfo>)
    ensures |r| == |loaded|
  {
    KeeperPass(reg.keepers, TargetPass(reg.initializers, UnreachablePass(reg, loaded)))
  }

  /** The resolver after loading: None where out_of_memory ends the program. */
  function Resolve(env: Env, reg: Registries, loaded: seq<DomainInfo>): Option<seq<DomainInfo>>
  {
    var l1 := Marked3(reg, loaded);
    match SourcesFrom(env, reg, l1, 0, |l1|, l1)
    case None => None
    case Some(l2) =>
      match ParentsFrom(env, l2, 0, |l1|, l2)
      case None => None
      case Some(l3) => Some(Numbering(SortByKey(l3, NameOf)))
  }

  lemma NumberingKeepsCount(list: seq<DomainInfo>)
    ensures NumberedCount(Numbering(list)) == NumberedCount(list)
  {
    var r := Numbering(list);
    forall k | 0 <= k <= |list| ensures NumberedCount(r[..k]) == NumberedCount(list[..k]) {
      NumberedCountPrefix(list, r, k);
    }
    assert r[..|r|] == r && list[..|list|] == list;
  }

  lemma {:induction false} NumberedCountPrefix(a: seq<DomainInfo>, b: seq<DomainInfo>, k: nat)
    requires |a| == |b| && k <= |a|
    requires forall i :: 0 <= i < |a| ==> (Unnumbered(a[i]) <==> Unnumbered(b[i]))
    ensures NumberedCount(b[..k]) == NumberedCount(a[..k])
  {
    if k > 0 {
      assert a[..k][..k - 1] == a[..k - 1] && b[..k][..k - 1] == b[..k - 1];
      NumberedCountPrefix(a, b, k - 1);
    }
  }

  method ReadDomainAndExceptionPolicy(dp: DomainPolicy, ep: ExceptionPolicy, env: Env,
                                      exceptionLines: seq<string>, domainLines: seq<string>)
    returns (aborted: bool, unnumbered: nat)
    modifies dp, ep
    ensures ep.Snapshot() == LoadedRegistries(env, exceptionLines)
    ensures aborted <==> Resolve(env, ep.Snapshot(), LoadedList(env, domainLines)).None?
    ensures !aborted ==> Resolve(env, ep.Snapshot(), LoadedList(env, domainLines)) == Some(dp.list)
    ensures !aborted ==> unnumbered == |dp.list| - NumberedCount(dp.list)
    ensures !aborted ==> |dp.selected| == |dp.list| && forall k :: 0 <= k < |dp.selected| ==> !dp.selected[k]
  {
    unnumbered := 0;
    dp.ClearDomainPolicy();
    ep.Clear();
    var _ := dp.FindOrAssignNewDomain(env, ROOT_NAME, false, false);
    ep.LoadExceptionPolicy(env, exceptionLines);
    LoadDomainList(dp, env, domainLines);
    ghost var loaded := dp.list;
    var reg := ep.Snapshot();
    var maxIndex := |dp.list|;
    MarkUnreachable(dp, reg);
    MarkTargets(dp, reg.initializers);
    MarkKeepers(dp, reg.keepers);
    ghost var l1 := dp.list;
    assert l1 == Marked3(reg, loaded);
    aborted := SynthesizeSources(dp, env, reg, maxIndex);
    if aborted {
      return;
    }
    ghost var l2 := dp.list;
    aborted := SynthesizeParents(dp, env, maxIndex);
    if aborted {
      return;
    }
    SortByName(dp);
    ghost var sorted := dp.list;
    unnumbered := AssignNumbers(dp);
    NumberingKeepsCount(sorted);
    ClearSelection(dp);
  }

  // ---------------------------------------------------------------
  // What the resolver establishes
  // ---------------------------------------------------------------

  lemma PresentPermutation(a: seq<DomainInfo>, b: seq<DomainInfo>, name: string, isDis: bool, isDd: bool)
    requires multiset(a) == multiset(b) && Present(a, name, isDis, isDd)
    ensures Present(b, name, isDis, isDd)
  {
    var k := FindDomain(a, name, isDis, isDd);
    assert a[k] in multiset(b);
    var j :| 0 <= j < |b| && b[j] == a[k];
    assert HasKey(b[j], name, isDis, isDd);
  }

  /** Position by position, `b` carries the keys of `a`. */
  predicate SameKeys(a: seq<DomainInfo>, b: seq<DomainInfo>)
  {
    |a| == |b| && forall k :: 0 <= k < |a| ==> HasKey(b[k], a[k].name, a[k].isDis, a[k].isDd)
  }

  lemma PresentSameKeys(a: seq<DomainInfo>, b: seq<DomainInfo>, name: string, isDis: bool, isDd: bool)
    requires SameKeys(a, b) && Present(a, name, isDis, isDd)
    ensures Present(b, name, isDis, isDd)
  {
    var k := FindDomain(a, name, isDis, isDd);
    assert HasKey(b[k], name, isDis, isDd);
  }

  /** Whatever holds of the records' keys before the sort and the numbering
      holds after them. */
  lemma {:induction false} FinalPresent(l3: seq<DomainInfo>, name: string, isDis: bool, isDd: bool)
    requires Present(l3, name, isDis, isDd)
    ensures Present(Numbering(SortByKey(l3, NameOf)), name, isDis, isDd)
  {
    var sorted := SortByKey(l3, NameOf);
    PresentPermutation(l3, sorted, name, isDis, isDd);
    PresentSameKeys(sorted, Numbering(sorted), name, isDis, isDd);
  }

  lemma FinalAncestors(l3: seq<DomainInfo>, s: string)
    requires AncestorsPresent(l3, s)
    ensures AncestorsPresent(Numbering(SortByKey(l3, NameOf)), s)
  {
    var r := Numbering(SortByKey(l3, NameOf));
    forall q | 0 <= q < |s| && s[q] == ' ' ensures HasAncestor(r, s[..q]) {
      if Present(l3, s[..q], false, false) {
        FinalPresent(l3, s[..q], false, false);
      } else {
        FinalPresent(l3, s[..q], false, true);
      }
    }
  }

  lemma FinalSourced(env: Env, reg: Registries, l3: seq<DomainInfo>, d: DomainInfo)
    requires DomainSourced(env, reg, l3, d)
    ensures DomainSourced(env, reg, Numbering(SortByKey(l3, NameOf)), d)
  {
    var r := Numbering(SortByKey(l3, NameOf));
    if |d.name| != |ROOT_NAME| {
      forall j, m | 0 <= j < |d.acl| && 0 <= m < |LinePrograms(reg, d.acl[j])|
        ensures Sourced(env, reg, r, d.name, LinePrograms(reg, d.acl[j])[m])
      {
        var p := LinePrograms(reg, d.acl[j])[m];
        assert LineSourced(env, reg, l3, d.name, d.acl[j]);
        if IsDomainInitializer(reg.initializers, d.name, p).Some? {
          FinalPresent(l3, SourceName(env, d.name, p), true, false);
        }
      }
    }
  }

  /** After a resolve that does not abort: the list is sorted by name; no
      loaded record is lost; every loaded domain has a record for each of its
      ancestors; and the numbering is dense (-1 for synthesized records, 0, 1,
      2, ... in list order for the others, each value once). */
  lemma {:induction false} ResolvedProperties(env: Env, reg: Registries, loaded: seq<DomainInfo>)
    requires Resolve(env, reg, loaded).Some?
    ensures var r := Resolve(env, reg, loaded).value;
      && SortedBy(r, NameOf)
      && (forall k :: 0 <= k < |loaded| ==> Present(r, loaded[k].name, loaded[k].isDis, loaded[k].isDd))
      && (forall k :: 0 <= k < |loaded| ==> AncestorsPresent(r, loaded[k].name))
      && (forall k :: 0 <= k < |r| && Unnumbered(r[k]) ==> r[k].number == -1)
      && (forall a, b :: 0 <= a < b < |r| && !Unnumbered(r[a]) && !Unnumbered(r[b]) ==> 0 <= r[a].number < r[b].number)
      && (forall m :: 0 <= m < NumberedCount(r) ==> NumberTaken(r, m))
  {
    var l1 := Marked3(reg, loaded);
    var l2 := SourcesFrom(env, reg, l1, 0, |l1|, l1).value;
    var l3 := ParentsFrom(env, l2, 0, |l1|, l2).value;
    assert Resolve(env, reg, loaded).value == Numbering(SortByKey(l3, NameOf));
    assert SameKeys(loaded, l1);
    ParentsFromPresent(env, l2, 0, |l1|, l2);
    forall k | 0 <= k < |loaded|
      ensures HasKey(l3[k], loaded[k].name, loaded[k].isDis, loaded[k].isDd)
      ensures AncestorsPresent(l3, loaded[k].name)
    {
      assert HasKey(l3[k], loaded[k].name, loaded[k].isDis, loaded[k].isDd);
      assert l2[k].name == loaded[k].name;
    }
    FinalKeeps(loaded, l3);
    FinalOrder(l3);
  }

  /** The loaded records and their ancestors survive the sort and the
      numbering. */
  lemma FinalKeeps(loaded: seq<DomainInfo>, l3: seq<DomainInfo>)
    requires |loaded| <= |l3|
    requires forall k :: 0 <= k < |loaded| ==> HasKey(l3[k], loaded[k].name, loaded[k].isDis, loaded[k].isDd)
    requires forall k :: 0 <= k < |loaded| ==> AncestorsPresent(l3, loaded[k].name)
    ensures var r := Numbering(SortByKey(l3, NameOf));
      && (forall k :: 0 <= k < |loaded| ==> Present(r, loaded[k].name, loaded[k].isDis, loaded[k].isDd))
      && (forall k :: 0 <= k < |loaded| ==> AncestorsPresent(r, loaded[k].name))
  {
    forall k | 0 <= k < |loaded|
      ensures Present(Numbering(SortByKey(l3, NameOf)), loaded[k].name, loaded[k].isDis, loaded[k].isDd)
      ensures AncestorsPresent(Numbering(SortByKey(l3, NameOf)), loaded[k].name)
    {
      assert HasKey(l3[k], loaded[k].name, loaded[k].isDis, loaded[k].isDd);
      FinalPresent(l3, loaded[k].name, loaded[k].isDis, loaded[k].isDd);
      FinalAncestors(l3, loaded[k].name);
    }
  }

  /** The sort orders the list by name and the numbering that follows it is
      dense. */
  lemma FinalOrder(l3: seq<DomainInfo>)
    ensures var r := Numbering(SortByKey(l3, NameOf));
      && SortedBy(r, NameOf)
      && (forall k :: 0 <= k < |r| && Unnumbered(r[k]) ==> r[k].number == -1)
      && (forall a, b :: 0 <= a < b < |r| && !Unnumbered(r[a]) && !Unnumbered(r[b]) ==> 0 <= r[a].number < r[b].number)
      && (forall m :: 0 <= m < NumberedCount(r) ==> NumberTaken(r, m))
  {
    var sorted := SortByKey(l3, NameOf);
    var r := Numbering(sorted);
    SortByKeySorted(l3, NameOf);
    assert forall k :: 0 <= k < |r| ==> NameOf(r[k]) == NameOf(sorted[k]);
    NumberingDense(sorted);
    NumberingKeepsCount(sorted);
    forall k | 0 <= k < |r| ensures Unnumbered(r[k]) <==> Unnumbered(sorted[k]) {
      assert r[k] == sorted[k].(number := r[k].number);
    }
  }

  /** After a resolve that does not abort, every program an initializer
      redirects from a loaded non-root domain (named in its ACL directly or
      through a path group) has its is_dis source record. */
  lemma {:induction false} ResolvedSources(env: Env, reg: Registries, loaded: seq<DomainInfo>)
    requires Resolve(env, reg, loaded).Some?
    ensures forall k :: 0 <= k < |loaded| ==> DomainSourced(env, reg, Resolve(env, reg, loaded).value, loaded[k])
  {
    var l1 := Marked3(reg, loaded);
    var l2 := SourcesFrom(env, reg, l1, 0, |l1|, l1).value;
    var l3 := ParentsFrom(env, l2, 0, |l1|, l2).value;
    assert Resolve(env, reg, loaded).value == Numbering(SortByKey(l3, NameOf));
    SourcesFromSourced(env, reg, l1, 0, |l1|, l1);
    forall k | 0 <= k < |loaded| ensures DomainSourced(env, reg, Numbering(SortByKey(l3, NameOf)), loaded[k]) {
      assert l1[k].name == loaded[k].name && l1[k].acl == loaded[k].acl;
      DomainSourcedPersists(env, reg, l2, l3, l1[k]);
      FinalSourced(env, reg, l3, l1[k]);
    }
  }
}
