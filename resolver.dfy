/** The domain-graph resolver of read_domain_and_exception_policy: the
    passes that run once both policy files are loaded. Each pass is a method
    over the store, proved against a function of the store before the pass;
    the lemmas state what the passes establish. */
module Resolver {
  import opened CStrings
  import opened Primitives
  import opened DomainStore
  import opened Exceptions

  // ---------------------------------------------------------------
  // Pass 1: unreachable domains
  // ---------------------------------------------------------------

  /** The walk from a domain's name toward the root: at each step the last
      component is split off as the program and the rest is the parent; an
      initializer for (parent, program) is recorded and the walk goes on,
      unless the parent is as long as the root name, which ends the walk; a
      keeper for (parent, program) is recorded instead. The result is the
      pair (d_i, d_k) left at the end. */
  function Walk(reg: Registries, s: string, dI: Option<nat>, dK: Option<nat>): (Option<nat>, Option<nat>)
    decreases |s|
  {
    match LastIndexOf(s, ' ')
    case None => (dI, dK)
    case Some(p) =>
      var parent := s[..p];
      var program := s[p + 1..];
      match IsDomainInitializer(reg.initializers, parent, program)
      case Some(i) =>
        if |parent| == |ROOT_NAME| then (dI, dK) else Walk(reg, parent, Some(i), None)
      case None =>
        match IsDomainKeeper(reg.keepers, parent, program)
        case Some(k) => Walk(reg, parent, None, Some(k))
        case None => Walk(reg, parent, dI, dK)
  }

  predicate Marked(w: (Option<nat>, Option<nat>))
  {
    w.0.Some? || w.1.Some?
  }

  /** The record after the walk: is_du is set when either pointer is set. */
  function UnreachableStep(reg: Registries, d: DomainInfo): DomainInfo
  {
    var w := Walk(reg, d.name, d.dI, d.dK);
    d.(dI := w.0, dK := w.1, isDu := d.isDu || Marked(w))
  }

  function UnreachablePass(reg: Registries, list: seq<DomainInfo>): (r: seq<DomainInfo>)
    ensures |r| == |list|
  {
    seq(|list|, k requires 0 <= k < |list| => UnreachableStep(reg, list[k]))
  }

  /** The walk of one name, on a working copy cut back at each step. */
  method WalkDomain(reg: Registries, name: string, dI0: Option<nat>, dK0: Option<nat>)
    returns (dI: Option<nat>, dK: Option<nat>)
    ensures (dI, dK) == Walk(reg, name, dI0, dK0)
  {
    var buf := name;
    dI, dK := dI0, dK0;
    while true
      invariant Walk(reg, buf, dI, dK) == Walk(reg, name, dI0, dK0)
      decreases |buf|
    {
      var cp := LastIndexOf(buf, ' ');
      if cp.None? {
        return;
      }
      var parent := buf[..cp.value];
      var program := buf[cp.value + 1..];
      var di := IsDomainInitializer(reg.initializers, parent, program);
      if di.Some? {
        if |parent| == |ROOT_NAME| {
          return;
        }
        dI, dK := di, None;
        buf := parent;
        continue;
      }
      var dk := IsDomainKeeper(reg.keepers, parent, program);
      if dk.Some? {
        dI, dK := None, dk;
      }
      buf := parent;
    }
  }

  method MarkUnreachable(dp: DomainPolicy, reg: Registries)
    modifies dp
    ensures dp.list == UnreachablePass(reg, old(dp.list))
    ensures dp.selected == old(dp.selected)
  {
    var index := 0;
    while index < |dp.list|
      invariant 0 <= index <= |dp.list| == |old(dp.list)|
      invariant forall k :: 0 <= k < index ==> dp.list[k] == UnreachableStep(reg, old(dp.list)[k])
      invariant forall k :: index <= k < |dp.list| ==> dp.list[k] == old(dp.list)[k]
      invariant dp.selected == old(dp.selected)
    {
      var d := dp.list[index];
      var dI, dK := WalkDomain(reg, d.name, d.dI, d.dK);
      d := d.(dI := dI, dK := dK);
      if dI.Some? || dK.Some? {
        d := d.(isDu := true);
      }
      dp.list := dp.list[index := d];
      index := index + 1;
    }
  }

  /** Once a pointer is set it stays set: the walk only replaces it. */
  lemma {:induction false} WalkMarked(reg: Registries, s: string, dI: Option<nat>, dK: Option<nat>)
    ensures Marked(Walk(reg, s, dI, dK)) <==> Marked((dI, dK)) || Marked(Walk(reg, s, None, None))
    decreases |s|
  {
    match LastIndexOf(s, ' ')
    case None =>
    case Some(p) =>
      var parent := s[..p];
      var program := s[p + 1..];
      match IsDomainInitializer(reg.initializers, parent, program)
      case Some(i) =>
        if |parent| != |ROOT_NAME| {
          WalkMarked(reg, parent, Some(i), None);
        }
      case None =>
        match IsDomainKeeper(reg.keepers, parent, program)
        case Some(k) =>
          WalkMarked(reg, parent, None, Some(k));
        case None =>
          WalkMarked(reg, parent, dI, dK);
  }

  /** The first step of the walk of `parent + " " + program`. */
  lemma WalkFirstStep(s: string, parent: string, program: string)
    requires s == parent + " " + program && ' ' !in program
    ensures LastIndexOf(s, ' ') == Some(|parent|)
    ensures s[..|parent|] == parent && s[|parent| + 1..] == program
  {
    assert s[|parent|] == ' ';
    assert s[|parent| + 1..] == program;
  }

  /** A program started straight under a root-length domain through an
      initializer is reachable: the walk stops before looking any further. */
  lemma RootLevelInitializerReachable(reg: Registries, parent: string, program: string)
    requires ' ' !in program && |parent| == |ROOT_NAME|
    requires IsDomainInitializer(reg.initializers, parent, program).Some?
    ensures !Marked(Walk(reg, parent + " " + program, None, None))
  {
    WalkFirstStep(parent + " " + program, parent, program);
  }

  /** An initializer that applies anywhere deeper makes the domain unreachable. */
  lemma DeepInitializerUnreachable(reg: Registries, parent: string, program: string)
    requires ' ' !in program && |parent| != |ROOT_NAME|
    requires IsDomainInitializer(reg.initializers, parent, program).Some?
    ensures Marked(Walk(reg, parent + " " + program, None, None))
  {
    var s := parent + " " + program;
    WalkFirstStep(s, parent, program);
    var i := IsDomainInitializer(reg.initializers, parent, program).value;
    WalkMarked(reg, parent, Some(i), None);
  }

  /** A keeper for the parent makes the domain unreachable when no
      initializer applies first. */
  lemma KeeperUnreachable(reg: Registries, parent: string, program: string)
    requires ' ' !in program
    requires IsDomainInitializer(reg.initializers, parent, program).None?
    requires IsDomainKeeper(reg.keepers, parent, program).Some?
    ensures Marked(Walk(reg, parent + " " + program, None, None))
  {
    var s := parent + " " + program;
    WalkFirstStep(s, parent, program);
    var k := IsDomainKeeper(reg.keepers, parent, program).value;
    WalkMarked(reg, parent, None, Some(k));
  }

  /** Unreachability is inherited by children, except across the one step
      that ends the walk (an initializer straight under a root-length parent). */
  lemma UnreachableInherited(reg: Registries, parent: string, program: string)
    requires ' ' !in program
    requires !(|parent| == |ROOT_NAME| && IsDomainInitializer(reg.initializers, parent, program).Some?)
    requires Marked(Walk(reg, parent, None, None))
    ensures Marked(Walk(reg, parent + " " + program, None, None))
  {
    var s := parent + " " + program;
    WalkFirstStep(s, parent, program);
    match IsDomainInitializer(reg.initializers, parent, program)
    case Some(i) =>
      WalkMarked(reg, parent, Some(i), None);
    case None =>
      match IsDomainKeeper(reg.keepers, parent, program)
      case Some(k) =>
        WalkMarked(reg, parent, None, Some(k));
      case None =>
  }

  /** A name without a space is never walked. */
  lemma TopLevelNotWalked(reg: Registries, s: string, dI: Option<nat>, dK: Option<nat>)
    requires ' ' !in s
    ensures Walk(reg, s, dI, dK) == (dI, dK)
  {
  }

  // ---------------------------------------------------------------
  // Pass 2: initializer targets
  // ---------------------------------------------------------------

  /** A positive initializer rule for `program`, whatever its domain part. */
  predicate TargetRule(rule: InitializerRule, program: string)
  {
    !rule.isNot && rule.program == program
  }

  /** The name has exactly one space and some positive initializer names
      the program after it. */
  predicate InitializerTarget(rules: seq<InitializerRule>, name: string)
  {
    match FirstIndexOf(name, ' ')
    case None => false
    case Some(p) =>
      ' ' !in name[p + 1..] && exists k :: 0 <= k < |rules| && TargetRule(rules[k], name[p + 1..])
  }

  function TargetStep(rules: seq<InitializerRule>, d: DomainInfo): DomainInfo
  {
    d.(isDit := d.isDit || InitializerTarget(rules, d.name))
  }

  function TargetPass(rules: seq<InitializerRule>, list: seq<DomainInfo>): (r: seq<DomainInfo>)
    ensures |r| == |list|
  {
    seq(|list|, k requires 0 <= k < |list| => TargetStep(rules, list[k]))
  }

  /** One record of the second pass: is_dit is set when the name is
      "<root> program" and some positive initializer names the program. */
  method TargetOf(rules: seq<InitializerRule>, d: DomainInfo) returns (e: DomainInfo)
    ensures e == TargetStep(rules, d)
  {
    e := d;
    var cp := FirstIndexOf(d.name, ' ');
    if cp.Some? && FirstIndexOf(d.name[cp.value + 1..], ' ').None? {
      var program := d.name[cp.value + 1..];
      var i := 0;
      var dit := d.isDit;
      while i < |rules|
        invariant 0 <= i <= |rules|
        invariant dit <==> d.isDit || exists k :: 0 <= k < i && TargetRule(rules[k], program)
      {
        if TargetRule(rules[i], program) {
          dit := true;
        }
        i := i + 1;
      }
      e := d.(isDit := dit);
    }
  }

  method MarkTargets(dp: DomainPolicy, rules: seq<InitializerRule>)
    modifies dp
    ensures dp.list == TargetPass(rules, old(dp.list))
    ensures dp.selected == old(dp.selected)
  {
    var index := 0;
    while index < |dp.list|
      invariant 0 <= index <= |dp.list| == |old(dp.list)|
      invariant forall k :: 0 <= k < index ==> dp.list[k] == TargetStep(rules, old(dp.list)[k])
      invariant forall k :: index <= k < |dp.list| ==> dp.list[k] == old(dp.list)[k]
      invariant dp.selected == old(dp.selected)
    {
      var d := TargetOf(rules, dp.list[index]);
      dp.list := dp.list[index := d];
      index := index + 1;
    }
  }

  /** A program started straight under a one-component domain through a
      positive initializer rule is flagged as an initializer target. */
  lemma InitializerLookupMakesTarget(rules: seq<InitializerRule>, top: string, program: string)
    requires ' ' !in top && ' ' !in program
    requires IsDomainInitializer(rules, top, program).Some?
    ensures InitializerTarget(rules, top + " " + program)
  {
    var s := top + " " + program;
    InitializerLookup(rules, top, program);
    var f := IsDomainInitializer(rules, top, program).value;
    assert s[|top|] == ' ' && s[..|top|] == top;
    assert FirstIndexOf(s, ' ') == Some(|top|);
    assert s[|top| + 1..] == program;
    assert TargetRule(rules[f], program);
  }

  /** A name with no space or with two spaces is never a target. */
  lemma TargetNeedsOneSpace(rules: seq<InitializerRule>, name: string)
    requires InitializerTarget(rules, name)
    ensures exists p :: 0 <= p < |name| && name[p] == ' ' && ' ' !in name[..p] && ' ' !in name[p + 1..]
  {
    var p := FirstIndexOf(name, ' ').value;
    assert name[p] == ' ' && ' ' !in name[..p] && ' ' !in name[p + 1..];
  }

  // ---------------------------------------------------------------
  // Pass 3: keeper domains
  // ---------------------------------------------------------------

  /** What the keeper pass tests: a full-name rule names the domain; a
      last-name rule names the text after the domain's last space, and
      never matches a name without one. */
  predicate KeeperFlags(rule: KeeperRule, name: string)
  {
    !rule.isNot
    && if !rule.isLastName then rule.domain == name
       else match LastIndexOf(name, ' ')
            case None => false
            case Some(p) => rule.domain == name[p + 1..]
  }

  predicate KeeperDomain(rules: seq<KeeperRule>, name: string)
  {
    exists k :: 0 <= k < |rules| && KeeperFlags(rules[k], name)
  }

  function KeeperStep(rules: seq<KeeperRule>, d: DomainInfo): DomainInfo
  {
    d.(isDk := d.isDk || KeeperDomain(rules, d.name))
  }

  function KeeperPass(rules: seq<KeeperRule>, list: seq<DomainInfo>): (r: seq<DomainInfo>)
    ensures |r| == |list|
  {
    seq(|list|, k requires 0 <= k < |list| => KeeperStep(rules, list[k]))
  }

  method MarkKeepers(dp: DomainPolicy, rules: seq<KeeperRule>)
    modifies dp
    ensures dp.list == KeeperPass(rules, old(dp.list))
    ensures dp.selected == old(dp.selected)
  {
    var index := 0;
    while index < |dp.list|
      invariant 0 <= index <= |dp.list| == |old(dp.list)|
      invariant forall k :: 0 <= k < index ==> dp.list[k] == KeeperStep(rules, old(dp.list)[k])
      invariant forall k :: index <= k < |dp.list| ==> dp.list[k] == old(dp.list)[k]
      invariant dp.selected == old(dp.selected)
    {
      var d := dp.list[index];
      var dk := d.isDk;
      var i := 0;
      while i < |rules|
        invariant 0 <= i <= |rules|
        invariant dk <==> d.isDk || exists k :: 0 <= k < i && KeeperFlags(rules[k], d.name)
      {
        if KeeperFlags(rules[i], d.name) {
          dk := true;
        }
        i := i + 1;
      }
      dp.list := dp.list[index := d.(isDk := dk)];
      index := index + 1;
    }
  }

  /** For a name with a space, every domain is_domain_keeper answers for
      (with any program) is flagged by the keeper pass. */
  lemma KeeperLookupMakesKeeper(rules: seq<KeeperRule>, name: string, program: string)
    requires ' ' in name
    requires IsDomainKeeper(rules, name, program).Some?
    ensures KeeperDomain(rules, name)
  {
    KeeperLookup(rules, name, program);
    var f := IsDomainKeeper(rules, name, program).value;
    assert KeeperFlags(rules[f], name);
  }

  /** A last-name rule never flags a domain whose name has no space, although
      is_domain_keeper would match it. */
  lemma LastNameKeeperNeedsSpace(rules: seq<KeeperRule>, name: string)
    requires ' ' !in name
    requires forall k :: 0 <= k < |rules| ==> rules[k].isLastName
    ensures !KeeperDomain(rules, name)
  {
  }

  // ---------------------------------------------------------------
  // Two worked examples
  // ---------------------------------------------------------------

  /** A program started from a second-level domain: the rule
      "initialize_domain /b from <kernel> /a" makes "<kernel> /a /b"
      unreachable, and the name has two spaces, so it is no target. */
  lemma SecondLevelInitializerExample(reg: Registries)
    requires reg.initializers == [ExceptionRule(Some("<kernel> /a"), "/b", false, false)]
    ensures Marked(Walk(reg, "<kernel> /a /b", None, None))
    ensures !InitializerTarget(reg.initializers, "<kernel> /a /b")
  {
    SecondLevelMarked(reg);
    SecondLevelNotTarget(reg.initializers);
  }

  lemma SecondLevelMarked(reg: Registries)
    requires reg.initializers == [ExceptionRule(Some("<kernel> /a"), "/b", false, false)]
    ensures Marked(Walk(reg, "<kernel> /a /b", None, None))
  {
    InitializerLookup(reg.initializers, "<kernel> /a", "/b");
    assert InitializerMatches(reg.initializers[0], "<kernel> /a", "/b");
    assert "<kernel> /a /b" == "<kernel> /a" + " " + "/b";
    DeepInitializerUnreachable(reg, "<kernel> /a", "/b");
  }

  lemma SecondLevelNotTarget(rules: seq<InitializerRule>)
    ensures !InitializerTarget(rules, "<kernel> /a /b")
  {
    var name := "<kernel> /a /b";
    assert FirstIndexOf(name, ' ') == Some(8) by {
      assert name[8] == ' ' && ' ' !in name[..8];
    }
    assert name[9..][2] == ' ';
  }

  /** The same program started straight from the root through a domainless
      rule: reachable, and an initializer target. */
  lemma RootLevelInitializerExample(reg: Registries)
    requires reg.initializers == [ExceptionRule(None, "/b", false, false)]
    ensures !Marked(Walk(reg, "<kernel> /b", None, None))
    ensures InitializerTarget(reg.initializers, "<kernel> /b")
  {
    InitializerLookup(reg.initializers, ROOT_NAME, "/b");
    assert InitializerMatches(reg.initializers[0], ROOT_NAME, "/b");
    assert "<kernel> /b" == ROOT_NAME + " " + "/b";
    RootLevelInitializerReachable(reg, ROOT_NAME, "/b");
    InitializerLookupMakesTarget(reg.initializers, ROOT_NAME, "/b");
  }
}
