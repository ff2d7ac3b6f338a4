/** handle_domain_policy: the line-driven edit-script interpreter over a
    domain policy (write direction) and its serialiser (read direction), and
    read_domain_policy, which runs the interpreter and then sorts. */
module DomainScript {
  import opened CStrings
  import opened Primitives
  import opened DomainStore

  const KEYWORD_USE_PROFILE: string := "use_profile="
  const DELETE_PREFIX: string := "delete "
  const SELECT_PREFIX: string := "select "

  /** `sscanf(line, "use_profile=%u", &profile) == 1`. */
  function ParseUseProfile(line: string): Option<nat>
  {
    if StartsWith(line, KEYWORD_USE_PROFILE) then
      match ScanNumber(line[|KEYWORD_USE_PROFILE|..], false)
      case Some((v, _)) => Some(v)
      case None => None
    else None
  }

  /** `printf("use_profile=%u", profile)`. */
  function ProfileLine(profile: nat): string
  {
    KEYWORD_USE_PROFILE + Numeral(profile, false)
  }

  lemma {:induction false} ProfileLineParses(profile: nat)
    ensures ParseUseProfile(ProfileLine(profile)) == Some(profile)
  {
    var s := ProfileLine(profile);
    assert s[..|KEYWORD_USE_PROFILE|] == KEYWORD_USE_PROFILE;
    assert s[|KEYWORD_USE_PROFILE|..] == Numeral(profile, false);
    ScanNumeral(profile, false);
  }

  /** The interpreter's state between lines: the list and the "current" index. */
  datatype ScriptState = ScriptState(list: seq<DomainInfo>, index: int)

  predicate ValidState(st: ScriptState)
  {
    st.index == EOF || 0 <= st.index < |st.list|
  }

  /** One iteration of handle_domain_policy's write loop. */
  function ApplyDomainLine(env: Env, st: ScriptState, line0: string): (r: ScriptState)
    requires ValidState(st)
    ensures ValidState(r)
  {
    var isDelete := StartsWith(line0, DELETE_PREFIX);
    var isSelect := !isDelete && StartsWith(line0, SELECT_PREFIX);
    var line := if isDelete || isSelect then line0[7..] else line0;
    if env.isDomainDef(line) then
      if isDelete then
        var i := FindDomain(st.list, line, false, false);
        ScriptState(if i != EOF then DeleteDomainAt(st.list, i) else st.list, EOF)
      else if isSelect then
        ScriptState(st.list, FindDomain(st.list, line, false, false))
      else
        var o := AssignOutcome(env, st.list, line, false, false);
        ScriptState(o.list, o.status)
    else if st.index == EOF || line == "" then st
    else match ParseUseProfile(line)
      case Some(p) => ScriptState(st.list[st.index := st.list[st.index].(profile := p % 256)], st.index)
      case None =>
        if isDelete then ScriptState(DelEntryOutcome(st.list, line, st.index).list, st.index)
        else ScriptState(AddEntryOutcome(st.list, line, st.index).list, st.index)
  }

  /** The state after interpreting `lines` in order. */
  function ApplyDomainScript(env: Env, st: ScriptState, lines: seq<string>): (r: ScriptState)
    requires ValidState(st)
    ensures ValidState(r)
  {
    if lines == [] then st
    else ApplyDomainLine(env, ApplyDomainScript(env, st, lines[..|lines| - 1]), lines[|lines| - 1])
  }

  lemma {:induction false} ApplyDomainScriptAppend(env: Env, st: ScriptState, a: seq<string>, b: seq<string>)
    requires ValidState(st)
    ensures ApplyDomainScript(env, st, a + b) == ApplyDomainScript(env, ApplyDomainScript(env, st, a), b)
    decreases |b|
  {
    if b == [] {
      assert a + b == a;
    } else {
      assert (a + b)[..|a + b| - 1] == a + b[..|b| - 1];
      ApplyDomainScriptAppend(env, st, a, b[..|b| - 1]);
    }
  }

  /** The lines handle_domain_policy prints for one record. */
  function ProfileBlock(d: DomainInfo): seq<string>
  {
    [d.name, ProfileLine(d.profile), ""] + d.acl + [""]
  }

  /** handle_domain_policy's read-direction output, line by line. */
  function ProfileText(list: seq<DomainInfo>): seq<string>
  {
    if list == [] then [] else ProfileText(list[..|list| - 1]) + ProfileBlock(list[|list| - 1])
  }

  method HandleDomainPolicy(dp: DomainPolicy, env: Env, input: seq<string>, isWrite: bool) returns (output: seq<string>)
    modifies dp
    ensures isWrite ==> dp.list == ApplyDomainScript(env, ScriptState(old(dp.list), EOF), input).list
    ensures isWrite ==> output == []
    ensures !isWrite ==> dp.list == old(dp.list) && output == ProfileText(dp.list)
    ensures dp.selected == old(dp.selected)
  {
    output := [];
    if !isWrite {
      output := PrintDomainPolicy(dp.list);
      return;
    }
    var index := EOF;
    var k := 0;
    while k < |input|
      invariant 0 <= k <= |input|
      invariant ValidState(ScriptState(dp.list, index))
      invariant ScriptState(dp.list, index) == ApplyDomainScript(env, ScriptState(old(dp.list), EOF), input[..k])
      invariant dp.selected == old(dp.selected)
    {
      assert input[..k + 1][..k] == input[..k];
      index := HandleDomainLine(dp, env, index, input[k]);
      k := k + 1;
    }
    assert input[..k] == input;
  }

  /** The read direction of handle_domain_policy: each record's name, its
      profile line, a blank line, its ACL lines and a blank line. */
  method PrintDomainPolicy(list: seq<DomainInfo>) returns (output: seq<string>)
    ensures output == ProfileText(list)
  {
    output := [];
    var i := 0;
    while i < |list|
      invariant 0 <= i <= |list|
      invariant output == ProfileText(list[..i])
    {
      assert list[..i + 1][..i] == list[..i];
      var d := list[i];
      output := output + [d.name, ProfileLine(d.profile), ""];
      var j := 0;
      while j < |d.acl|
        invariant 0 <= j <= |d.acl|
        invariant output == ProfileText(list[..i]) + [d.name, ProfileLine(d.profile), ""] + d.acl[..j]
      {
        assert d.acl[..j + 1] == d.acl[..j] + [d.acl[j]];
        output := output + [d.acl[j]];
        j := j + 1;
      }
      assert d.acl[..j] == d.acl;
      output := output + [""];
      i := i + 1;
    }
    assert list[..i] == list;
  }

  /** One line of handle_domain_policy's write loop, on the policy in place. */
  method HandleDomainLine(dp: DomainPolicy, env: Env, index0: int, line0: string) returns (index: int)
    requires ValidState(ScriptState(dp.list, index0))
    modifies dp
    ensures ScriptState(dp.list, index) == ApplyDomainLine(env, ScriptState(old(dp.list), index0), line0)
    ensures dp.selected == old(dp.selected)
  {
    index := index0;
    var line := line0;
    var isDelete := false;
    var isSelect := false;
    if StartsWith(line, DELETE_PREFIX) {
      isDelete := true;
      line := line[7..];
    } else if StartsWith(line, SELECT_PREFIX) {
      isSelect := true;
      line := line[7..];
    }
    if env.isDomainDef(line) {
      if isDelete {
        index := FindDomain(dp.list, line, false, false);
        if index >= 0 {
          dp.DeleteDomain(index);
        }
        index := EOF;
      } else if isSelect {
        index := FindDomain(dp.list, line, false, false);
      } else {
        index := dp.FindOrAssignNewDomain(env, line, false, false);
      }
    } else if index != EOF && line != "" {
      var profile := ParseUseProfile(line);
      if profile.Some? {
        dp.list := dp.list[index := dp.list[index].(profile := profile.value % 256)];
      } else if isDelete {
        var _ := dp.DelStringEntry(line, index);
      } else {
        var _ := dp.AddStringEntry(line, index);
      }
    }
  }

  /** read_domain_policy, once the file is open: interpret, then sort. */
  method ReadDomainPolicy(dp: DomainPolicy, env: Env, input: seq<string>)
    modifies dp
    ensures dp.list == SortedPolicy(ApplyDomainScript(env, ScriptState(old(dp.list), EOF), input).list)
    ensures dp.selected == old(dp.selected)
  {
    var _ := HandleDomainPolicy(dp, env, input, true);
    dp.SortDomainPolicy();
  }

  // ---------------------------------------------------------------
  // Round trip: what the read direction prints, the write direction
  // reads back into an empty policy as the same records.
  // ---------------------------------------------------------------

  /** An ACL line the interpreter stores verbatim. */
  predicate StorableLine(env: Env, x: string)
  {
    x != "" && !env.isDomainDef(x) && !StartsWith(x, DELETE_PREFIX) && !StartsWith(x, SELECT_PREFIX)
    && ParseUseProfile(x).None?
  }

  /** A domain name the interpreter opens verbatim. */
  predicate HeaderName(env: Env, n: string)
  {
    env.isDomainDef(n) && env.isCorrectDomain(n) && !StartsWith(n, DELETE_PREFIX) && !StartsWith(n, SELECT_PREFIX)
  }

  /** A record as the interpreter builds it: only name, profile and ACL lines set. */
  predicate PlainRecord(env: Env, d: DomainInfo)
  {
    && HeaderName(env, d.name)
    && (forall x :: x in d.acl ==> StorableLine(env, x))
    && NoDuplicates(d.acl)
    && d == NewDomain(d.name, false, false).(acl := d.acl, profile := d.profile)
  }

  predicate PlainStore(env: Env, list: seq<DomainInfo>)
  {
    && (forall k :: 0 <= k < |list| ==> PlainRecord(env, list[k]))
    && (forall i, j :: 0 <= i < j < |list| ==> list[i].name != list[j].name)
  }

  lemma NotDomainDefLines(env: Env, profile: nat)
    requires DomainDefsStartAtRoot(env)
    ensures !env.isDomainDef("")
    ensures !env.isDomainDef(ProfileLine(profile))
  {
    var s := ProfileLine(profile);
    assert s[0] != ROOT_NAME[0];
  }

  /** Lines that add ACL entries append them, in order, to the current record. */
  lemma {:induction false} ApplyAclLines(env: Env, st: ScriptState, xs: seq<string>)
    requires ValidState(st) && st.index != EOF
    requires forall x :: x in xs ==> StorableLine(env, x)
    requires NoDuplicates(st.list[st.index].acl + xs)
    ensures var r := ApplyDomainScript(env, st, xs);
            r.index == st.index && r.list == st.list[st.index := st.list[st.index].(acl := st.list[st.index].acl + xs)]
    decreases |xs|
  {
    if xs == [] {
      assert st.list[st.index].acl + xs == st.list[st.index].acl;
      assert st.list[st.index := st.list[st.index]] == st.list;
    } else {
      var init := xs[..|xs| - 1];
      var x := xs[|xs| - 1];
      assert xs == init + [x];
      assert st.list[st.index].acl + xs == (st.list[st.index].acl + init) + [x];
      NoDuplicatesSnoc(st.list[st.index].acl + init, x);
      ApplyAclLines(env, st, init);
      var mid := ApplyDomainScript(env, st, init);
      assert mid.list[mid.index].acl == st.list[st.index].acl + init;
      assert x in xs;
      assert StorableLine(env, x);
      assert ApplyDomainLine(env, mid, x) == ScriptState(AddEntryOutcome(mid.list, x, mid.index).list, mid.index);
    }
  }

  /** The front of a list without duplicates has none, and lacks the last element. */
  lemma NoDuplicatesSnoc(a: seq<string>, x: string)
    requires NoDuplicates(a + [x])
    ensures NoDuplicates(a) && x !in a
  {
    var b := a + [x];
    forall i, j | 0 <= i < j < |a| ensures a[i] != a[j] {
      assert a[i] == b[i] && a[j] == b[j];
    }
    forall i | 0 <= i < |a| ensures a[i] != x {
      assert b[i] == a[i] && b[|a|] == x;
    }
  }

  lemma ApplySingle(env: Env, st: ScriptState, x: string)
    requires ValidState(st)
    ensures ApplyDomainScript(env, st, [x]) == ApplyDomainLine(env, st, x)
  {
    assert [x][..0] == [];
  }

  /** The header line of a block opens a new record at the end of the list. */
  lemma ApplyHeaderLine(env: Env, st: ScriptState, d: DomainInfo)
    requires ValidState(st)
    requires HeaderName(env, d.name)
    requires forall k :: 0 <= k < |st.list| ==> st.list[k].name != d.name
    ensures ApplyDomainLine(env, st, d.name) == ScriptState(st.list + [NewDomain(d.name, false, false)], |st.list|)
  {
    assert FindDomain(st.list, d.name, false, false) == EOF;
  }

  /** The profile line of a block sets the current record's profile. */
  lemma ApplyProfileLine(env: Env, st: ScriptState, p: Byte)
    requires DomainDefsStartAtRoot(env)
    requires ValidState(st) && st.index != EOF
    ensures ApplyDomainLine(env, st, ProfileLine(p))
         == ScriptState(st.list[st.index := st.list[st.index].(profile := p)], st.index)
  {
    NotDomainDefLines(env, p);
    ProfileLineUnprefixed(p);
    ProfileLineParses(p);
    assert p % 256 == p;
  }

  /** A profile line is neither a delete nor a select line. */
  lemma ProfileLineUnprefixed(p: nat)
    ensures ProfileLine(p) != ""
    ensures !StartsWith(ProfileLine(p), DELETE_PREFIX) && !StartsWith(ProfileLine(p), SELECT_PREFIX)
  {
    var pl := ProfileLine(p);
    assert pl[0] == 'u';
    assert !StartsWith(pl, DELETE_PREFIX) by { assert DELETE_PREFIX[0] == 'd'; }
    assert !StartsWith(pl, SELECT_PREFIX) by { assert SELECT_PREFIX[0] == 's'; }
  }

  /** A blank line changes nothing. */
  lemma ApplyBlankLine(env: Env, st: ScriptState)
    requires DomainDefsStartAtRoot(env)
    requires ValidState(st)
    ensures ApplyDomainLine(env, st, "") == st
  {
    NotDomainDefLines(env, 0);
  }

  /** Interpreting one more line after `a`. */
  lemma AppendLine(env: Env, st: ScriptState, a: seq<string>, x: string, mid: ScriptState)
    requires ValidState(st) && mid == ApplyDomainScript(env, st, a)
    ensures ApplyDomainScript(env, st, a + [x]) == ApplyDomainLine(env, mid, x)
  {
    var b := a + [x];
    assert b[..|b| - 1] == a && b[|b| - 1] == x;
  }

  /** A trailing blank line changes nothing. */
  lemma AppendBlank(env: Env, st: ScriptState, a: seq<string>, mid: ScriptState)
    requires DomainDefsStartAtRoot(env)
    requires ValidState(st) && mid == ApplyDomainScript(env, st, a)
    ensures ApplyDomainScript(env, st, a + [""]) == mid
  {
    AppendLine(env, st, a, "", mid);
    ApplyBlankLine(env, mid);
  }

  /** The header line of a block, read as a one-line script. */
  lemma HeaderScript(env: Env, st: ScriptState, d: DomainInfo)
    requires ValidState(st)
    requires HeaderName(env, d.name)
    requires forall k :: 0 <= k < |st.list| ==> st.list[k].name != d.name
    ensures ApplyDomainScript(env, st, [d.name]) == ScriptState(st.list + [NewDomain(d.name, false, false)], |st.list|)
  {
    ApplyHeaderLine(env, st, d);
    ApplySingle(env, st, d.name);
  }

  /** The header and profile lines of a block. */
  lemma HeaderProfileScript(env: Env, st: ScriptState, d: DomainInfo)
    requires DomainDefsStartAtRoot(env)
    requires ValidState(st)
    requires HeaderName(env, d.name)
    requires forall k :: 0 <= k < |st.list| ==> st.list[k].name != d.name
    ensures ApplyDomainScript(env, st, [d.name, ProfileLine(d.profile)])
         == ScriptState(st.list + [NewDomain(d.name, false, false).(profile := d.profile)], |st.list|)
  {
    var n := |st.list|;
    var s1 := ScriptState(st.list + [NewDomain(d.name, false, false)], n);
    HeaderScript(env, st, d);
    AppendLine(env, st, [d.name], ProfileLine(d.profile), s1);
    assert [d.name] + [ProfileLine(d.profile)] == [d.name, ProfileLine(d.profile)];
    ApplyProfileLine(env, s1, d.profile);
    assert s1.list[n := s1.list[n].(profile := d.profile)] == st.list + [NewDomain(d.name, false, false).(profile := d.profile)];
  }

  /** The three head lines of a block open the record and set its profile. */
  lemma ApplyBlockHead(env: Env, st: ScriptState, d: DomainInfo)
    requires DomainDefsStartAtRoot(env)
    requires ValidState(st)
    requires HeaderName(env, d.name)
    requires forall k :: 0 <= k < |st.list| ==> st.list[k].name != d.name
    ensures ApplyDomainScript(env, st, [d.name, ProfileLine(d.profile), ""])
         == ScriptState(st.list + [NewDomain(d.name, false, false).(profile := d.profile)], |st.list|)
  {
    var pl := ProfileLine(d.profile);
    HeaderProfileScript(env, st, d);
    AppendBlank(env, st, [d.name, pl], ScriptState(st.list + [NewDomain(d.name, false, false).(profile := d.profile)], |st.list|));
    assert [d.name, pl] + [""] == [d.name, pl, ""];
  }

  /** Interpreting `a + b` is interpreting `b` from where `a` leaves off. */
  lemma ScriptThen(env: Env, st: ScriptState, a: seq<string>, b: seq<string>, mid: ScriptState)
    requires ValidState(st) && mid == ApplyDomainScript(env, st, a)
    ensures ApplyDomainScript(env, st, a + b) == ApplyDomainScript(env, mid, b)
  {
    ApplyDomainScriptAppend(env, st, a, b);
  }

  /** The ACL lines of a block, read after its head lines, fill in the record. */
  lemma AclLinesFillRecord(env: Env, st: ScriptState, d: DomainInfo)
    requires ValidState(st)
    requires PlainRecord(env, d)
    ensures var s2 := ScriptState(st.list + [NewDomain(d.name, false, false).(profile := d.profile)], |st.list|);
            ApplyDomainScript(env, s2, d.acl) == ScriptState(st.list + [d], |st.list|)
  {
    var n := |st.list|;
    var e := NewDomain(d.name, false, false).(profile := d.profile);
    var s2 := ScriptState(st.list + [e], n);
    assert e.acl + d.acl == d.acl;
    ApplyAclLines(env, s2, d.acl);
    assert e.(acl := d.acl) == d;
    assert s2.list[n := s2.list[n].(acl := s2.list[n].acl + d.acl)] == st.list + [d];
  }

  /** The head lines and the ACL lines of a block give the whole record. */
  lemma ApplyBlockAcl(env: Env, st: ScriptState, d: DomainInfo)
    requires DomainDefsStartAtRoot(env)
    requires ValidState(st)
    requires PlainRecord(env, d)
    requires forall k :: 0 <= k < |st.list| ==> st.list[k].name != d.name
    ensures ApplyDomainScript(env, st, [d.name, ProfileLine(d.profile), ""] + d.acl) == ScriptState(st.list + [d], |st.list|)
  {
    var C := [d.name, ProfileLine(d.profile), ""];
    var s2 := ScriptState(st.list + [NewDomain(d.name, false, false).(profile := d.profile)], |st.list|);
    ApplyBlockHead(env, st, d);
    ScriptThen(env, st, C, d.acl, s2);
    AclLinesFillRecord(env, st, d);
  }

  /** One printed block read into a policy that lacks its name appends that record. */
  lemma ApplyProfileBlock(env: Env, st: ScriptState, d: DomainInfo)
    requires DomainDefsStartAtRoot(env)
    requires ValidState(st)
    requires PlainRecord(env, d)
    requires forall k :: 0 <= k < |st.list| ==> st.list[k].name != d.name
    ensures ApplyDomainScript(env, st, ProfileBlock(d)).list == st.list + [d]
  {
    var C := [d.name, ProfileLine(d.profile), ""];
    ApplyBlockAcl(env, st, d);
    AppendBlank(env, st, C + d.acl, ScriptState(st.list + [d], |st.list|));
    assert C + d.acl + [""] == ProfileBlock(d);
  }

  /** The parts of a plain store split off its last record. */
  lemma PlainStoreSplit(env: Env, init: seq<DomainInfo>, d: DomainInfo)
    requires PlainStore(env, init + [d])
    ensures PlainStore(env, init) && PlainRecord(env, d)
    ensures forall k :: 0 <= k < |init| ==> init[k].name != d.name
  {
    var list := init + [d];
    assert d == list[|init|];
    forall i, j | 0 <= i < j < |init| ensures init[i].name != init[j].name {
      assert init[i] == list[i] && init[j] == list[j];
    }
    forall k | 0 <= k < |init| ensures PlainRecord(env, init[k]) && init[k].name != d.name {
      assert init[k] == list[k];
    }
  }

  /** Printing a policy and interpreting the printout on an empty policy
      gives back the same records in the same order. */
  lemma {:induction false} ProfileTextRoundTrip(env: Env, list: seq<DomainInfo>)
    requires DomainDefsStartAtRoot(env)
    requires PlainStore(env, list)
    ensures ApplyDomainScript(env, ScriptState([], EOF), ProfileText(list)).list == list
  {
    if list != [] {
      var init := list[..|list| - 1];
      var d := list[|list| - 1];
      assert list == init + [d];
      PlainStoreSplit(env, init, d);
      ProfileTextRoundTrip(env, init);
      var mid := ApplyDomainScript(env, ScriptState([], EOF), ProfileText(init));
      RoundTripStep(env, init, d, mid);
    }
  }

  /** The last block of the printout appends the last record to what the
      earlier blocks read back. */
  lemma RoundTripStep(env: Env, init: seq<DomainInfo>, d: DomainInfo, mid: ScriptState)
    requires DomainDefsStartAtRoot(env)
    requires PlainRecord(env, d)
    requires forall k :: 0 <= k < |init| ==> init[k].name != d.name
    requires mid == ApplyDomainScript(env, ScriptState([], EOF), ProfileText(init))
    requires mid.list == init
    ensures ApplyDomainScript(env, ScriptState([], EOF), ProfileText(init + [d])).list == init + [d]
  {
    assert (init + [d])[..|init + [d]| - 1] == init;
    assert ProfileText(init + [d]) == ProfileText(init) + ProfileBlock(d);
    ApplyDomainScriptAppend(env, ScriptState([], EOF), ProfileText(init), ProfileBlock(d));
    ApplyProfileBlock(env, mid, d);
  }
}
