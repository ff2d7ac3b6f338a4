/** The two diff engines: the per-domain diff of save_domain_policy_with_diff
    and the line-multiset diff of move_proc_to_file. Both cancel each proc
    line against the first equal, not yet cancelled base line; what is left
    of the base becomes `delete` lines and what is left of the proc is
    printed as is. */
module PolicyDiff {
  import opened CStrings
  import opened DomainStore
  import opened DomainScript
  import opened Primitives

  // ---------------------------------------------------------------
  // First-match cancellation over arrays of nullable lines.
  // ---------------------------------------------------------------

  /** The first slot at or after `from` holding `x`. */
  function FirstSomeFrom(b: seq<Option<string>>, x: string, from: nat): (r: Option<nat>)
    decreases |b| - from
    ensures r.Some? ==> from <= r.value < |b| && b[r.value] == Some(x)
    ensures r.Some? ==> forall k :: from <= k < r.value ==> b[k] != Some(x)
    ensures r.None? ==> forall k :: from <= k < |b| ==> b[k] != Some(x)
  {
    if from >= |b| then None
    else if b[from] == Some(x) then Some(from)
    else FirstSomeFrom(b, x, from + 1)
  }

  /** The two arrays after the cancellation loops: a proc slot is None when
      its line cancelled a base line, a base slot is None when it was cancelled. */
  datatype Cancelled = Cancelled(proc: seq<Option<string>>, base: seq<Option<string>>)

  /** Rows 0 .. |proc| of the cancellation, each proc line taking out the
      first remaining equal base line (move_proc_to_file's loop with `break`). */
  function CancelLines(proc: seq<string>, base: seq<Option<string>>): (c: Cancelled)
    ensures |c.proc| == |proc| && |c.base| == |base|
  {
    if proc == [] then Cancelled([], base)
    else
      var c := CancelLines(proc[..|proc| - 1], base);
      var x := proc[|proc| - 1];
      match FirstSomeFrom(c.base, x, 0)
      case None => Cancelled(c.proc + [Some(x)], c.base)
      case Some(j) => Cancelled(c.proc + [None], c.base[j := None])
  }

  /** Every line as a non-null slot. */
  function Wrap(s: seq<string>): (r: seq<Option<string>>)
    ensures |r| == |s| && forall k :: 0 <= k < |s| ==> r[k] == Some(s[k])
  {
    if s == [] then [] else Wrap(s[..|s| - 1]) + [Some(s[|s| - 1])]
  }

  /** The non-null slots, in order. */
  function Somes(s: seq<Option<string>>): seq<string>
  {
    if s == [] then []
    else Somes(s[..|s| - 1]) + (if s[|s| - 1].Some? then [s[|s| - 1].value] else [])
  }

  /** `"delete " + x` for each line. */
  function DeleteLines(s: seq<string>): (r: seq<string>)
    ensures |r| == |s| && forall k :: 0 <= k < |s| ==> r[k] == DELETE_PREFIX + s[k]
  {
    if s == [] then [] else DeleteLines(s[..|s| - 1]) + [DELETE_PREFIX + s[|s| - 1]]
  }

  /** One row of save_domain_policy_with_diff's cancellation, which has no
      `break`: once the proc slot is NULL it goes on "matching" NULL base slots. */
  function NoBreakRow(p: Option<string>, b: seq<Option<string>>, j: nat): (Option<string>, seq<Option<string>>)
    decreases |b| - j
  {
    if j >= |b| then (p, b)
    else if p == b[j] then NoBreakRow(None, b[j := None], j + 1)
    else NoBreakRow(p, b, j + 1)
  }

  /** All rows of save_domain_policy_with_diff's cancellation, in order. */
  function NoBreakLines(proc: seq<string>, base: seq<Option<string>>): (c: Cancelled)
  {
    if proc == [] then Cancelled([], base)
    else
      var c := NoBreakLines(proc[..|proc| - 1], base);
      var row := NoBreakRow(Some(proc[|proc| - 1]), c.base, 0);
      Cancelled(c.proc + [row.0], row.1)
  }

  lemma {:induction false} NoBreakRowNull(b: seq<Option<string>>, j: nat)
    ensures NoBreakRow(None, b, j) == (None, b)
    decreases |b| - j
  {
    if j < |b| {
      if b[j] == None {
        assert b[j := None] == b;
      }
      NoBreakRowNull(b, j + 1);
    }
  }

  lemma {:induction false} NoBreakRowFirst(x: string, b: seq<Option<string>>, j: nat)
    ensures NoBreakRow(Some(x), b, j) ==
      match FirstSomeFrom(b, x, j)
      case None => (Some(x), b)
      case Some(k) => (None, b[k := None])
    decreases |b| - j
  {
    if j < |b| {
      if b[j] == Some(x) {
        NoBreakRowNull(b[j := None], j + 1);
      } else {
        NoBreakRowFirst(x, b, j + 1);
      }
    }
  }

  /** The loop without `break` cancels exactly as the loop with `break` does. */
  lemma {:induction false} NoBreakIsFirstMatch(proc: seq<string>, base: seq<Option<string>>)
    ensures NoBreakLines(proc, base) == CancelLines(proc, base)
  {
    if proc != [] {
      NoBreakIsFirstMatch(proc[..|proc| - 1], base);
      NoBreakRowFirst(proc[|proc| - 1], CancelLines(proc[..|proc| - 1], base).base, 0);
    }
  }

  // ---------------------------------------------------------------
  // What is left over: multiset differences.
  // ---------------------------------------------------------------

  lemma {:induction false} SomesWrap(s: seq<string>)
    ensures Somes(Wrap(s)) == s
  {
    if s != [] {
      SomesWrap(s[..|s| - 1]);
      assert Wrap(s)[..|s| - 1] == Wrap(s[..|s| - 1]);
    }
  }

  lemma {:induction false} SomesAppend(a: seq<Option<string>>, x: Option<string>)
    ensures Somes(a + [x]) == Somes(a) + (if x.Some? then [x.value] else [])
  {
    assert (a + [x])[..|a|] == a;
  }

  /** Nulling a slot holding `x` takes one `x` out of the remaining lines. */
  lemma {:induction false} SomesNullOne(b: seq<Option<string>>, j: nat, x: string)
    requires j < |b| && b[j] == Some(x)
    ensures multiset(Somes(b[j := None])) + multiset{x} == multiset(Somes(b))
    decreases |b|
  {
    var n := |b| - 1;
    var b' := b[j := None];
    if j == n {
      assert b'[..n] == b[..n];
      assert Somes(b') == Somes(b[..n]);
      assert Somes(b) == Somes(b[..n]) + [x];
    } else {
      var t := if b[n].Some? then [b[n].value] else [];
      assert b'[..n] == b[..n][j := None];
      assert Somes(b') == Somes(b[..n][j := None]) + t;
      assert Somes(b) == Somes(b[..n]) + t;
      SomesNullOne(b[..n], j, x);
    }
  }

  /** No slot holds `x` exactly when `x` is not among the remaining lines. */
  lemma {:induction false} SomesAbsent(b: seq<Option<string>>, x: string)
    requires forall k :: 0 <= k < |b| ==> b[k] != Some(x)
    ensures multiset(Somes(b))[x] == 0
    decreases |b|
  {
    if b != [] {
      SomesAbsent(b[..|b| - 1], x);
    }
  }

  lemma MultisetStepCancels(mb: multiset<string>, mi: multiset<string>, x: string)
    requires x in mb - mi
    ensures (mb - mi) - multiset{x} == mb - (mi + multiset{x})
    ensures mi - mb == (mi + multiset{x}) - mb
  {
    assert (mb - mi)[x] > 0;
    forall y ensures ((mb - mi) - multiset{x})[y] == (mb - (mi + multiset{x}))[y] {
    }
    forall y ensures (mi - mb)[y] == ((mi + multiset{x}) - mb)[y] {
    }
  }

  lemma MultisetStepKeeps(mb: multiset<string>, mi: multiset<string>, x: string)
    requires (mb - mi)[x] == 0
    ensures mb - mi == mb - (mi + multiset{x})
    ensures (mi - mb) + multiset{x} == (mi + multiset{x}) - mb
  {
    forall y ensures (mb - mi)[y] == (mb - (mi + multiset{x}))[y] {
    }
    forall y ensures ((mi - mb) + multiset{x})[y] == ((mi + multiset{x}) - mb)[y] {
    }
  }

  /** Cancelling `proc` against the whole of `base` leaves exactly the
      multiset difference on each side: every proc line cancels at most one
      equal base line, and it does so whenever one is left. */
  lemma {:induction false} CancelLinesMultisets(proc: seq<string>, base: seq<string>)
    ensures var c := CancelLines(proc, Wrap(base));
            multiset(Somes(c.base)) == multiset(base) - multiset(proc)
            && multiset(Somes(c.proc)) == multiset(proc) - multiset(base)
    decreases |proc|
  {
    if proc == [] {
      SomesWrap(base);
    } else {
      var init := proc[..|proc| - 1];
      var x := proc[|proc| - 1];
      assert proc == init + [x];
      var c := CancelLines(init, Wrap(base));
      CancelLinesMultisets(init, base);
      assert multiset(proc) == multiset(init) + multiset{x};
      match FirstSomeFrom(c.base, x, 0)
      case None =>
        SomesAbsent(c.base, x);
        SomesAppend(c.proc, Some(x));
        MultisetStepKeeps(multiset(base), multiset(init), x);
      case Some(j) =>
        SomesNullOne(c.base, j, x);
        SomesAppend(c.proc, None);
        assert x in multiset(Somes(c.base));
        MultisetStepCancels(multiset(base), multiset(init), x);
    }
  }

  /** A duplicate-free list holds each line at most once. */
  lemma {:induction false} NoDuplicatesCount(s: seq<string>, y: string)
    requires NoDuplicates(s)
    ensures multiset(s)[y] <= 1
    decreases |s|
  {
    if s != [] {
      var init := s[..|s| - 1];
      assert s == init + [s[|s| - 1]];
      assert NoDuplicates(init) by {
        forall i, j | 0 <= i < j < |init| ensures init[i] != init[j] {
          assert init[i] == s[i] && init[j] == s[j];
        }
      }
      NoDuplicatesCount(init, y);
      if s[|s| - 1] == y {
        assert y !in init by {
          forall i | 0 <= i < |init| ensures init[i] != y {
            assert init[i] == s[i];
          }
        }
      }
    }
  }

  /** For duplicate-free lists the leftovers are the lines of one side that
      the other side lacks. */
  lemma CancelLinesMembership(proc: seq<string>, base: seq<string>)
    requires NoDuplicates(proc) && NoDuplicates(base)
    ensures var c := CancelLines(proc, Wrap(base));
            (forall y :: y in Somes(c.base) <==> y in base && y !in proc)
            && (forall y :: y in Somes(c.proc) <==> y in proc && y !in base)
  {
    CancelLinesMultisets(proc, base);
    var c := CancelLines(proc, Wrap(base));
    forall y ensures (y in Somes(c.base) <==> y in base && y !in proc)
                  && (y in Somes(c.proc) <==> y in proc && y !in base)
    {
      NoDuplicatesCount(proc, y);
      NoDuplicatesCount(base, y);
      assert y in Somes(c.base) <==> y in multiset(Somes(c.base));
      assert y in Somes(c.proc) <==> y in multiset(Somes(c.proc));
      assert y in base <==> y in multiset(base);
      assert y in proc <==> y in multiset(proc);
    }
  }

  /** Nothing is left on either side exactly when the two lists are permutations. */
  lemma CancelLinesEmpty(proc: seq<string>, base: seq<string>)
    ensures var c := CancelLines(proc, Wrap(base));
            (Somes(c.base) == [] && Somes(c.proc) == []) <==> multiset(proc) == multiset(base)
  {
    CancelLinesMultisets(proc, base);
    var c := CancelLines(proc, Wrap(base));
    EmptyMultiset(Somes(c.base));
    EmptyMultiset(Somes(c.proc));
    DifferencesEmpty(multiset(proc), multiset(base));
  }

  lemma EmptyMultiset(s: seq<string>)
    ensures s == [] <==> multiset(s) == multiset{}
  {
    if s != [] {
      assert s[0] in multiset(s);
    }
  }

  /** Two multisets are equal exactly when neither exceeds the other. */
  lemma DifferencesEmpty(mp: multiset<string>, mb: multiset<string>)
    ensures (mb - mp == multiset{} && mp - mb == multiset{}) <==> mp == mb
  {
    if mb - mp == multiset{} && mp - mb == multiset{} {
      forall y ensures mp[y] == mb[y] {
        assert (mb - mp)[y] == 0 && (mp - mb)[y] == 0;
      }
    }
  }

  // ---------------------------------------------------------------
  // save_domain_policy_with_diff
  // ---------------------------------------------------------------

  /** "delete <name>" and a blank line, for a domain only in the base. */
  function RemovedBlock(b: DomainInfo): seq<string>
  {
    [DELETE_PREFIX + b.name, ""]
  }

  /** The full record, for a domain only in the proc policy. */
  function AddedBlock(d: DomainInfo): seq<string>
  {
    [d.name, "", ProfileLine(d.profile)] + d.acl + [""]
  }

  /** The changes for a domain in both: header only when something follows. */
  function ChangedBlock(d: DomainInfo, b: DomainInfo): seq<string>
  {
    var c := NoBreakLines(d.acl, Wrap(b.acl));
    var body := DeleteLines(Somes(c.base)) + Somes(c.proc)
      + (if d.profile != b.profile then [ProfileLine(d.profile)] else []);
    if body == [] then [] else [d.name, ""] + body + [""]
  }

  /** First loop: every base domain proc lacks, in base order. */
  function RemovedDomains(proc: seq<DomainInfo>, base: seq<DomainInfo>): seq<string>
  {
    if base == [] then []
    else
      var b := base[|base| - 1];
      RemovedDomains(proc, base[..|base| - 1])
      + (if FindByName(proc, b.name) == EOF then RemovedBlock(b) else [])
  }

  /** Second loop: every proc domain base lacks, in proc order. */
  function AddedDomains(proc: seq<DomainInfo>, base: seq<DomainInfo>): seq<string>
  {
    if proc == [] then []
    else
      var d := proc[|proc| - 1];
      AddedDomains(proc[..|proc| - 1], base)
      + (if FindByName(base, d.name) == EOF then AddedBlock(d) else [])
  }

  /** Third loop: every proc domain also in base, in proc order. */
  function ChangedDomains(proc: seq<DomainInfo>, base: seq<DomainInfo>): seq<string>
  {
    if proc == [] then []
    else
      var d := proc[|proc| - 1];
      var bi := FindByName(base, d.name);
      ChangedDomains(proc[..|proc| - 1], base)
      + (if bi == EOF then [] else ChangedBlock(d, base[bi]))
  }

  /** The lines save_domain_policy_with_diff prints. */
  function DomainDiff(proc: seq<DomainInfo>, base: seq<DomainInfo>): seq<string>
  {
    RemovedDomains(proc, base) + AddedDomains(proc, base) + ChangedDomains(proc, base)
  }

  /** A domain in both policies prints nothing exactly when its ACL lines are
      a permutation of the base's and its profile is the same. */
  lemma ChangedBlockEmpty(d: DomainInfo, b: DomainInfo)
    ensures ChangedBlock(d, b) == [] <==> multiset(d.acl) == multiset(b.acl) && d.profile == b.profile
  {
    NoBreakIsFirstMatch(d.acl, Wrap(b.acl));
    CancelLinesEmpty(d.acl, b.acl);
  }

  /** For duplicate-free ACL lists a changed block deletes exactly the
      base-only lines and adds exactly the proc-only lines. */
  lemma ChangedBlockLeftovers(d: DomainInfo, b: DomainInfo)
    requires NoDuplicates(d.acl) && NoDuplicates(b.acl)
    ensures var c := NoBreakLines(d.acl, Wrap(b.acl));
            && (forall y :: y in Somes(c.base) <==> y in b.acl && y !in d.acl)
            && (forall y :: y in Somes(c.proc) <==> y in d.acl && y !in b.acl)
  {
    NoBreakIsFirstMatch(d.acl, Wrap(b.acl));
    CancelLinesMembership(d.acl, b.acl);
  }

  predicate UniqueNames(list: seq<DomainInfo>)
  {
    forall i, j :: 0 <= i < j < |list| ==> list[i].name != list[j].name
  }

  /** Base domains that all occur in proc print no `delete` line. */
  lemma {:induction false} RemovedDomainsNone(proc: seq<DomainInfo>, base: seq<DomainInfo>)
    requires forall k :: 0 <= k < |base| ==> FindByName(proc, base[k].name) != EOF
    ensures RemovedDomains(proc, base) == []
  {
    if base != [] {
      RemovedDomainsNone(proc, base[..|base| - 1]);
    }
  }

  /** Proc domains that all occur in base print no added record. */
  lemma {:induction false} AddedDomainsNone(proc: seq<DomainInfo>, base: seq<DomainInfo>)
    requires forall k :: 0 <= k < |proc| ==> FindByName(base, proc[k].name) != EOF
    ensures AddedDomains(proc, base) == []
  {
    if proc != [] {
      AddedDomainsNone(proc[..|proc| - 1], base);
    }
  }

  /** Every record of a policy with unique names is its own counterpart. */
  lemma {:induction false} ChangedDomainsSelf(list: seq<DomainInfo>, n: nat)
    requires UniqueNames(list) && n <= |list|
    ensures ChangedDomains(list[..n], list) == []
  {
    if n > 0 {
      var d := list[..n][n - 1];
      assert d == list[n - 1];
      assert list[..n][..n - 1] == list[..n - 1];
      ChangedDomainsSelf(list, n - 1);
      assert FindByName(list, d.name) == n - 1;
      ChangedBlockEmpty(d, d);
    }
  }

  /** Diffing a policy with unique domain names against itself prints
      nothing. */
  lemma {:induction false} DomainDiffSelf(list: seq<DomainInfo>)
    requires UniqueNames(list)
    ensures DomainDiff(list, list) == []
  {
    forall k | 0 <= k < |list| ensures FindByName(list, list[k].name) != EOF {
    }
    RemovedDomainsNone(list, list);
    AddedDomainsNone(list, list);
    ChangedDomainsSelf(list, |list|);
    assert list[..|list|] == list;
  }

  // ---------------------------------------------------------------
  // The diff law: the lines save_domain_policy_with_diff prints, read by
  // handle_domain_policy onto the base policy, give the proc policy's
  // domains with the same profiles and the same ACL lines.
  // ---------------------------------------------------------------

  /** The records of `list` whose name `other` has (`present`) or lacks, in order. */
  function WithNames(list: seq<DomainInfo>, other: seq<DomainInfo>, present: bool): (r: seq<DomainInfo>)
    ensures forall x :: x in r ==> x in list && (FindByName(other, x.name) != EOF) == present
    ensures forall k :: 0 <= k < |list| && (FindByName(other, list[k].name) != EOF) == present ==> list[k] in r
  {
    if list == [] then []
    else
      var x := list[|list| - 1];
      assert forall k :: 0 <= k < |list| - 1 ==> list[k] == list[..|list| - 1][k];
      WithNames(list[..|list| - 1], other, present)
      + (if (FindByName(other, x.name) != EOF) == present then [x] else [])
  }

  lemma {:induction false} WithNamesUnique(list: seq<DomainInfo>, other: seq<DomainInfo>, present: bool)
    requires UniqueNames(list)
    ensures UniqueNames(WithNames(list, other, present))
  {
    if list != [] {
      var init := list[..|list| - 1];
      var x := list[|list| - 1];
      assert UniqueNames(init) by {
        forall i, j | 0 <= i < j < |init| ensures init[i].name != init[j].name {
          assert init[i] == list[i] && init[j] == list[j];
        }
      }
      WithNamesUnique(init, other, present);
      var w := WithNames(init, other, present);
      forall k | 0 <= k < |w| ensures w[k].name != x.name {
        assert w[k] in w;
        var m :| 0 <= m < |init| && init[m] == w[k];
        assert list[m] == w[k];
      }
      var r := WithNames(list, other, present);
      forall i, j | 0 <= i < j < |r| ensures r[i].name != r[j].name {
        assert r[i] == w[i];
        if j < |w| {
          assert r[j] == w[j];
        }
      }
    }
  }

  /** A record with the key (name, false, false), no earlier record of that
      name: find_domain finds it. */
  lemma FindDomainAt(list: seq<DomainInfo>, i: nat, name: string)
    requires i < |list| && HasKey(list[i], name, false, false)
    requires forall j :: 0 <= j < i ==> list[j].name != name
    ensures FindDomain(list, name, false, false) == i
  {
  }

  /** A `delete` line naming a stored domain removes that record and
      clears the current index. */
  lemma ApplyDeleteDomainLine(env: Env, st: ScriptState, i: nat, name: string)
    requires ValidState(st) && i < |st.list| && HasKey(st.list[i], name, false, false)
    requires HeaderName(env, name)
    requires forall j :: 0 <= j < i ==> st.list[j].name != name
    ensures ApplyDomainLine(env, st, DELETE_PREFIX + name) == ScriptState(st.list[..i] + st.list[i + 1..], EOF)
  {
    var l := DELETE_PREFIX + name;
    assert l[..7] == DELETE_PREFIX && l[7..] == name;
    FindDomainAt(st.list, i, name);
  }

  /** A removed block deletes its record. */
  lemma ApplyRemovedBlock(env: Env, st: ScriptState, i: nat, b: DomainInfo)
    requires DomainDefsStartAtRoot(env)
    requires ValidState(st) && i < |st.list| && st.list[i] == b
    requires PlainRecord(env, b)
    requires forall j :: 0 <= j < i ==> st.list[j].name != b.name
    ensures ApplyDomainScript(env, st, RemovedBlock(b)) == ScriptState(st.list[..i] + st.list[i + 1..], EOF)
  {
    var x := DELETE_PREFIX + b.name;
    var s1 := ScriptState(st.list[..i] + st.list[i + 1..], EOF);
    ApplyDeleteDomainLine(env, st, i, b.name);
    ApplySingle(env, st, x);
    AppendBlank(env, st, [x], s1);
    assert [x] + [""] == RemovedBlock(b);
  }

  /** The first loop's blocks for the first `n` base records delete those
      proc lacks and keep the rest in place. */
  lemma {:induction false} RemovedDomainsApply(env: Env, proc: seq<DomainInfo>, base: seq<DomainInfo>, n: nat)
    requires DomainDefsStartAtRoot(env) && PlainStore(env, base) && n <= |base|
    ensures ApplyDomainScript(env, ScriptState(base, EOF), RemovedDomains(proc, base[..n]))
         == ScriptState(WithNames(base[..n], proc, true) + base[n..], EOF)
  {
    var s0 := ScriptState(base, EOF);
    if n == 0 {
      assert base[..0] == [] && base[0..] == base;
    } else {
      RemovedDomainsApply(env, proc, base, n - 1);
      var k := WithNames(base[..n - 1], proc, true);
      var mid := ScriptState(k + base[n - 1..], EOF);
      RemovedStep(env, proc, base, n, k, mid);
    }
  }

  /** One base record of the first loop. */
  lemma RemovedStep(env: Env, proc: seq<DomainInfo>, base: seq<DomainInfo>, n: nat, k: seq<DomainInfo>, mid: ScriptState)
    requires DomainDefsStartAtRoot(env) && PlainStore(env, base) && 0 < n <= |base|
    requires k == WithNames(base[..n - 1], proc, true) && mid == ScriptState(k + base[n - 1..], EOF)
    requires ApplyDomainScript(env, ScriptState(base, EOF), RemovedDomains(proc, base[..n - 1])) == mid
    ensures ApplyDomainScript(env, ScriptState(base, EOF), RemovedDomains(proc, base[..n]))
         == ScriptState(WithNames(base[..n], proc, true) + base[n..], EOF)
  {
    var s0 := ScriptState(base, EOF);
    var b := base[n - 1];
    var prev := RemovedDomains(proc, base[..n - 1]);
    var kept := WithNames(base[..n], proc, true);
    RemovedSnoc(proc, base, n);
    WithNamesSnoc(base, proc, true, n);
    if FindByName(proc, b.name) != EOF {
      assert RemovedDomains(proc, base[..n]) == prev + [] == prev;
      assert kept == k + [b];
      KeptStep(k, base, n);
    } else {
      assert RemovedDomains(proc, base[..n]) == prev + RemovedBlock(b);
      assert kept == k + [] == k;
      assert PlainRecord(env, b);
      WithNamesBefore(base, proc, true, n);
      DropLayout(k, base, n, mid.list);
      RemovedDeleteStep(env, s0, prev, b, mid, |k|);
    }
  }

  lemma RemovedSnoc(proc: seq<DomainInfo>, base: seq<DomainInfo>, n: nat)
    requires 0 < n <= |base|
    ensures var b := base[n - 1];
            RemovedDomains(proc, base[..n])
            == RemovedDomains(proc, base[..n - 1]) + (if FindByName(proc, b.name) == EOF then RemovedBlock(b) else [])
  {
    assert base[..n][..n - 1] == base[..n - 1];
  }

  lemma WithNamesSnoc(list: seq<DomainInfo>, other: seq<DomainInfo>, present: bool, n: nat)
    requires 0 < n <= |list|
    ensures var x := list[n - 1];
            WithNames(list[..n], other, present)
            == WithNames(list[..n - 1], other, present) + (if (FindByName(other, x.name) != EOF) == present then [x] else [])
  {
    assert list[..n][..n - 1] == list[..n - 1];
  }

  /** The records picked from before position `n - 1` of a list with unique
      names all have names other than the one at `n - 1`. */
  lemma WithNamesBefore(list: seq<DomainInfo>, other: seq<DomainInfo>, present: bool, n: nat)
    requires UniqueNames(list) && 0 < n <= |list|
    ensures var w := WithNames(list[..n - 1], other, present);
            forall j :: 0 <= j < |w| ==> w[j].name != list[n - 1].name
  {
    var w := WithNames(list[..n - 1], other, present);
    forall j | 0 <= j < |w| ensures w[j].name != list[n - 1].name {
      assert w[j] in w;
      var m :| 0 <= m < n - 1 && list[..n - 1][m] == w[j];
      assert list[m] == w[j];
    }
  }

  lemma KeptStep(k: seq<DomainInfo>, base: seq<DomainInfo>, n: nat)
    requires 0 < n <= |base|
    ensures k + base[n - 1..] == (k + [base[n - 1]]) + base[n..]
  {
    assert base[n - 1..] == [base[n - 1]] + base[n..];
  }

  /** A removed block read where the record sits at `i`. */
  lemma RemovedDeleteStep(env: Env, s0: ScriptState, prev: seq<string>, b: DomainInfo, mid: ScriptState, i: nat)
    requires DomainDefsStartAtRoot(env) && ValidState(s0) && PlainRecord(env, b)
    requires mid == ApplyDomainScript(env, s0, prev)
    requires i < |mid.list| && mid.list[i] == b
    requires forall j :: 0 <= j < i ==> mid.list[j].name != b.name
    ensures ApplyDomainScript(env, s0, prev + RemovedBlock(b)) == ScriptState(mid.list[..i] + mid.list[i + 1..], EOF)
  {
    ScriptThen(env, s0, prev, RemovedBlock(b), mid);
    ApplyRemovedBlock(env, mid, i, b);
  }

  /** Where the record to delete sits, between the kept records and the rest. */
  lemma DropLayout(k: seq<DomainInfo>, base: seq<DomainInfo>, n: nat, list: seq<DomainInfo>)
    requires 0 < n <= |base| && list == k + base[n - 1..]
    requires forall j :: 0 <= j < |k| ==> k[j].name != base[n - 1].name
    ensures |k| < |list| && list[|k|] == base[n - 1]
    ensures forall j :: 0 <= j < |k| ==> list[j].name != base[n - 1].name
    ensures list[..|k|] + list[|k| + 1..] == k + base[n..]
  {
    assert list[..|k|] == k && list[|k| + 1..] == base[n..];
  }

  /** The head lines of an added block open the record and set its profile. */
  lemma ApplyAddedHead(env: Env, st: ScriptState, d: DomainInfo)
    requires DomainDefsStartAtRoot(env)
    requires ValidState(st)
    requires HeaderName(env, d.name)
    requires forall k :: 0 <= k < |st.list| ==> st.list[k].name != d.name
    ensures ApplyDomainScript(env, st, [d.name, "", ProfileLine(d.profile)])
         == ScriptState(st.list + [NewDomain(d.name, false, false).(profile := d.profile)], |st.list|)
  {
    var n := |st.list|;
    var pl := ProfileLine(d.profile);
    var s1 := ScriptState(st.list + [NewDomain(d.name, false, false)], n);
    HeaderScript(env, st, d);
    AppendBlank(env, st, [d.name], s1);
    assert [d.name] + [""] == [d.name, ""];
    AppendLine(env, st, [d.name, ""], pl, s1);
    assert [d.name, ""] + [pl] == [d.name, "", pl];
    ApplyProfileLine(env, s1, d.profile);
    assert s1.list[n := s1.list[n].(profile := d.profile)] == st.list + [NewDomain(d.name, false, false).(profile := d.profile)];
  }

  /** An added block read into a policy that lacks its name appends the record. */
  lemma ApplyAddedBlock(env: Env, st: ScriptState, d: DomainInfo)
    requires DomainDefsStartAtRoot(env)
    requires ValidState(st)
    requires PlainRecord(env, d)
    requires forall k :: 0 <= k < |st.list| ==> st.list[k].name != d.name
    ensures ApplyDomainScript(env, st, AddedBlock(d)) == ScriptState(st.list + [d], |st.list|)
  {
    var h := [d.name, "", ProfileLine(d.profile)];
    var s2 := ScriptState(st.list + [NewDomain(d.name, false, false).(profile := d.profile)], |st.list|);
    ApplyAddedHead(env, st, d);
    ScriptThen(env, st, h, d.acl, s2);
    AclLinesFillRecord(env, st, d);
    AppendBlank(env, st, h + d.acl, ScriptState(st.list + [d], |st.list|));
    assert h + d.acl + [""] == AddedBlock(d);
  }

  /** The second loop's blocks for the first `n` proc records append, in
      order, those the base lacks. */
  lemma {:induction false} AddedDomainsApply(env: Env, proc: seq<DomainInfo>, base: seq<DomainInfo>, st: ScriptState, n: nat)
    requires DomainDefsStartAtRoot(env) && PlainStore(env, proc) && ValidState(st) && n <= |proc|
    requires forall k :: 0 <= k < |st.list| ==> FindByName(base, st.list[k].name) != EOF
    ensures ApplyDomainScript(env, st, AddedDomains(proc[..n], base)).list == st.list + WithNames(proc[..n], base, false)
  {
    if n == 0 {
      assert proc[..0] == [];
      assert st.list + [] == st.list;
    } else {
      AddedDomainsApply(env, proc, base, st, n - 1);
      var mid := ApplyDomainScript(env, st, AddedDomains(proc[..n - 1], base));
      AddedStep(env, proc, base, st, n, mid);
    }
  }

  /** One proc record of the second loop. */
  lemma AddedStep(env: Env, proc: seq<DomainInfo>, base: seq<DomainInfo>, st: ScriptState, n: nat, mid: ScriptState)
    requires DomainDefsStartAtRoot(env) && PlainStore(env, proc) && ValidState(st) && 0 < n <= |proc|
    requires forall k :: 0 <= k < |st.list| ==> FindByName(base, st.list[k].name) != EOF
    requires mid == ApplyDomainScript(env, st, AddedDomains(proc[..n - 1], base))
    requires mid.list == st.list + WithNames(proc[..n - 1], base, false)
    ensures ApplyDomainScript(env, st, AddedDomains(proc[..n], base)).list == st.list + WithNames(proc[..n], base, false)
  {
    var d := proc[n - 1];
    var a := WithNames(proc[..n - 1], base, false);
    var prev := AddedDomains(proc[..n - 1], base);
    AddedSnoc(proc, base, n);
    WithNamesSnoc(proc, base, false, n);
    if FindByName(base, d.name) == EOF {
      assert AddedDomains(proc[..n], base) == prev + AddedBlock(d);
      assert WithNames(proc[..n], base, false) == a + [d];
      assert PlainRecord(env, d);
      WithNamesBefore(proc, base, false, n);
      AddedNamesFresh(st.list, a, base, d, mid.list);
      AddedAppendStep(env, st, prev, d, mid);
      SnocAssoc(st.list, a, d);
    } else {
      assert AddedDomains(proc[..n], base) == prev + [] == prev;
      assert WithNames(proc[..n], base, false) == a + [] == a;
    }
  }

  lemma AddedSnoc(proc: seq<DomainInfo>, base: seq<DomainInfo>, n: nat)
    requires 0 < n <= |proc|
    ensures var d := proc[n - 1];
            AddedDomains(proc[..n], base)
            == AddedDomains(proc[..n - 1], base) + (if FindByName(base, d.name) == EOF then AddedBlock(d) else [])
  {
    assert proc[..n][..n - 1] == proc[..n - 1];
  }

  /** A name the base lacks is new to the kept base records and to the
      records added before it. */
  lemma AddedNamesFresh(l: seq<DomainInfo>, a: seq<DomainInfo>, base: seq<DomainInfo>, d: DomainInfo, list: seq<DomainInfo>)
    requires list == l + a
    requires forall k :: 0 <= k < |l| ==> FindByName(base, l[k].name) != EOF
    requires FindByName(base, d.name) == EOF
    requires forall j :: 0 <= j < |a| ==> a[j].name != d.name
    ensures forall k :: 0 <= k < |list| ==> list[k].name != d.name
  {
    forall k | 0 <= k < |list| ensures list[k].name != d.name {
      if k < |l| {
        assert list[k] == l[k];
      } else {
        assert list[k] == a[k - |l|];
      }
    }
  }

  lemma SnocAssoc<T>(l: seq<T>, a: seq<T>, x: T)
    ensures (l + a) + [x] == l + (a + [x])
  {
  }

  /** An added block read after `prev` appends its record. */
  lemma AddedAppendStep(env: Env, st: ScriptState, prev: seq<string>, d: DomainInfo, mid: ScriptState)
    requires DomainDefsStartAtRoot(env) && ValidState(st) && PlainRecord(env, d)
    requires mid == ApplyDomainScript(env, st, prev)
    requires forall k :: 0 <= k < |mid.list| ==> mid.list[k].name != d.name
    ensures ApplyDomainScript(env, st, prev + AddedBlock(d)).list == mid.list + [d]
  {
    ScriptThen(env, st, prev, AddedBlock(d), mid);
    ApplyAddedBlock(env, mid, d);
  }

  /** The header line of a changed block selects the stored record of that name. */
  lemma ApplySelectHeader(env: Env, st: ScriptState, i: nat, name: string)
    requires ValidState(st) && i < |st.list| && HasKey(st.list[i], name, false, false)
    requires HeaderName(env, name)
    requires forall j :: 0 <= j < i ==> st.list[j].name != name
    ensures ApplyDomainLine(env, st, name) == ScriptState(st.list, i)
  {
    FindDomainAt(st.list, i, name);
  }

  /** The header and blank line of a changed block. */
  lemma ChangedHeadScript(env: Env, st: ScriptState, i: nat, name: string)
    requires DomainDefsStartAtRoot(env)
    requires ValidState(st) && i < |st.list| && HasKey(st.list[i], name, false, false)
    requires HeaderName(env, name)
    requires forall j :: 0 <= j < i ==> st.list[j].name != name
    ensures ApplyDomainScript(env, st, [name, ""]) == ScriptState(st.list, i)
  {
    ApplySelectHeader(env, st, i, name);
    ApplySingle(env, st, name);
    AppendBlank(env, st, [name], ScriptState(st.list, i));
    assert [name] + [""] == [name, ""];
  }

  /** The ACL list after `delete` lines for `xs`, read one at a time. */
  function DeleteAll(acl: seq<string>, xs: seq<string>): seq<string>
  {
    if xs == [] then acl
    else
      var a := DeleteAll(acl, xs[..|xs| - 1]);
      var x := xs[|xs| - 1];
      if x in a then RemoveFirst(a, x) else a
  }

  /** From a duplicate-free list, `delete` lines take out exactly their lines. */
  lemma {:induction false} DeleteAllMembers(acl: seq<string>, xs: seq<string>)
    requires NoDuplicates(acl)
    ensures NoDuplicates(DeleteAll(acl, xs))
    ensures forall y :: y in DeleteAll(acl, xs) <==> y in acl && y !in xs
  {
    if xs != [] {
      var init := xs[..|xs| - 1];
      var x := xs[|xs| - 1];
      assert xs == init + [x];
      DeleteAllMembers(acl, init);
      var a := DeleteAll(acl, init);
      if x in a {
        RemoveFirstNoDuplicates(a, x);
      }
    }
  }

  /** A `delete` line for an ACL line deletes it from the current record. */
  lemma ApplyDeleteAclLine(env: Env, st: ScriptState, x: string)
    requires ValidState(st) && st.index != EOF
    requires StorableLine(env, x)
    ensures ApplyDomainLine(env, st, DELETE_PREFIX + x) == ScriptState(DelEntryOutcome(st.list, x, st.index).list, st.index)
  {
    var l := DELETE_PREFIX + x;
    assert l[..7] == DELETE_PREFIX && l[7..] == x;
  }

  /** `delete` lines for `xs` delete them, in order, from the current record. */
  lemma {:induction false} ApplyDeleteLines(env: Env, st: ScriptState, xs: seq<string>)
    requires ValidState(st) && st.index != EOF
    requires forall x :: x in xs ==> StorableLine(env, x)
    ensures ApplyDomainScript(env, st, DeleteLines(xs))
         == ScriptState(st.list[st.index := st.list[st.index].(acl := DeleteAll(st.list[st.index].acl, xs))], st.index)
    decreases |xs|
  {
    var i := st.index;
    var e := st.list[i];
    if xs == [] {
      assert st.list[i := e.(acl := e.acl)] == st.list;
    } else {
      var init := xs[..|xs| - 1];
      var x := xs[|xs| - 1];
      assert x in xs;
      ApplyDeleteLines(env, st, init);
      var a := DeleteAll(e.acl, init);
      var mid := ScriptState(st.list[i := e.(acl := a)], i);
      AppendLine(env, st, DeleteLines(init), DELETE_PREFIX + x, mid);
      ApplyDeleteAclLine(env, mid, x);
      if x in a {
        assert mid.list[i := mid.list[i].(acl := RemoveFirst(a, x))] == st.list[i := e.(acl := RemoveFirst(a, x))];
      }
    }
  }

  /** A record with the same profile and the same ACL lines as `d`. */
  ghost predicate SameContent(r: DomainInfo, d: DomainInfo)
  {
    r.profile == d.profile && forall y :: y in r.acl <==> y in d.acl
  }

  /** Lines that occur at most once form a duplicate-free list. */
  lemma CountsNoDuplicates(s: seq<string>)
    requires forall y :: multiset(s)[y] <= 1
    ensures NoDuplicates(s)
  {
    forall i, j | 0 <= i < j < |s| ensures s[i] != s[j] {
      assert s == s[..j] + s[j..];
      assert s[..j][i] == s[i] && s[j..][0] == s[j];
      assert multiset(s)[s[j]] == multiset(s[..j])[s[j]] + multiset(s[j..])[s[j]];
    }
  }

  /** Two duplicate-free lists with the same lines are permutations. */
  lemma SameMembersMultiset(a: seq<string>, b: seq<string>)
    requires NoDuplicates(a) && NoDuplicates(b)
    requires forall y :: y in a <==> y in b
    ensures multiset(a) == multiset(b)
  {
    forall y ensures multiset(a)[y] == multiset(b)[y] {
      NoDuplicatesCount(a, y);
      NoDuplicatesCount(b, y);
      assert y in a <==> y in multiset(a);
      assert y in b <==> y in multiset(b);
    }
  }

  /** The lines a changed block adds to a duplicate-free base record occur once each. */
  lemma ChangedAddsNoDuplicates(d: DomainInfo, b: DomainInfo)
    requires NoDuplicates(d.acl) && NoDuplicates(b.acl)
    ensures NoDuplicates(Somes(NoBreakLines(d.acl, Wrap(b.acl)).proc))
  {
    NoBreakIsFirstMatch(d.acl, Wrap(b.acl));
    CancelLinesMultisets(d.acl, b.acl);
    var s := Somes(NoBreakLines(d.acl, Wrap(b.acl)).proc);
    forall y ensures multiset(s)[y] <= 1 {
      NoDuplicatesCount(d.acl, y);
    }
    CountsNoDuplicates(s);
  }

  /** The ACL list a changed block leaves: the base lines without those of
      the `delete` lines, then the added lines. */
  function ChangedAcl(d: DomainInfo, b: DomainInfo): seq<string>
  {
    var c := NoBreakLines(d.acl, Wrap(b.acl));
    DeleteAll(b.acl, Somes(c.base)) + Somes(c.proc)
  }

  /** For duplicate-free ACL lists that is a duplicate-free list of exactly
      the proc record's lines. */
  lemma ChangedAclMembers(d: DomainInfo, b: DomainInfo)
    requires NoDuplicates(d.acl) && NoDuplicates(b.acl)
    ensures NoDuplicates(ChangedAcl(d, b))
    ensures forall y :: y in ChangedAcl(d, b) <==> y in d.acl
  {
    var c := NoBreakLines(d.acl, Wrap(b.acl));
    ChangedBlockLeftovers(d, b);
    ChangedAddsNoDuplicates(d, b);
    DeleteAllMembers(b.acl, Somes(c.base));
    NoDuplicatesJoin(DeleteAll(b.acl, Somes(c.base)), Somes(c.proc));
  }

  lemma NoDuplicatesJoin(a: seq<string>, b: seq<string>)
    requires NoDuplicates(a) && NoDuplicates(b)
    requires forall y :: y in a ==> y !in b
    ensures NoDuplicates(a + b)
  {
    var s := a + b;
    forall p, q | 0 <= p < q < |s| ensures s[p] != s[q] {
      if q < |a| {
        assert s[p] == a[p] && s[q] == a[q];
      } else if p >= |a| {
        assert s[p] == b[p - |a|] && s[q] == b[q - |a|];
      } else {
        assert s[p] == a[p] && s[q] == b[q - |a|];
        assert s[p] in a && s[q] in b;
      }
    }
  }

  /** The `delete` and plain lines of a changed block give the selected
      record the changed ACL list. */
  lemma ApplyChangedAcl(env: Env, st: ScriptState, d: DomainInfo, b: DomainInfo)
    requires ValidState(st) && st.index != EOF && st.list[st.index] == b
    requires PlainRecord(env, d) && PlainRecord(env, b)
    ensures var c := NoBreakLines(d.acl, Wrap(b.acl));
            ApplyDomainScript(env, st, DeleteLines(Somes(c.base)) + Somes(c.proc))
            == ScriptState(st.list[st.index := b.(acl := ChangedAcl(d, b))], st.index)
  {
    var i := st.index;
    var c := NoBreakLines(d.acl, Wrap(b.acl));
    var dels := Somes(c.base);
    var adds := Somes(c.proc);
    ChangedBlockLeftovers(d, b);
    ChangedAclMembers(d, b);
    var a := DeleteAll(b.acl, dels);
    ApplyDeleteLines(env, st, dels);
    var mid := ScriptState(st.list[i := b.(acl := a)], i);
    ApplyAclLines(env, mid, adds);
    ScriptThen(env, st, DeleteLines(dels), adds, mid);
    assert mid.list[i := mid.list[i].(acl := a + adds)] == st.list[i := b.(acl := a + adds)];
  }

  /** The head, `delete` and plain lines of a changed block. */
  lemma ChangedHeadAcl(env: Env, st: ScriptState, d: DomainInfo, b: DomainInfo, i: nat)
    requires DomainDefsStartAtRoot(env)
    requires ValidState(st) && PlainRecord(env, d) && PlainRecord(env, b)
    requires i < |st.list| && st.list[i] == b && b.name == d.name
    requires forall j :: 0 <= j < i ==> st.list[j].name != d.name
    ensures var c := NoBreakLines(d.acl, Wrap(b.acl));
            ApplyDomainScript(env, st, [d.name, ""] + (DeleteLines(Somes(c.base)) + Somes(c.proc)))
            == ScriptState(st.list[i := b.(acl := ChangedAcl(d, b))], i)
  {
    var c := NoBreakLines(d.acl, Wrap(b.acl));
    var s1 := ScriptState(st.list, i);
    ChangedHeadScript(env, st, i, d.name);
    ScriptThen(env, st, [d.name, ""], DeleteLines(Somes(c.base)) + Somes(c.proc), s1);
    ApplyChangedAcl(env, s1, d, b);
  }

  /** The optional profile line and the closing blank line of a changed block. */
  lemma ChangedTail(env: Env, st: ScriptState, a: seq<string>, s2: ScriptState, p: Byte, q: Byte)
    requires DomainDefsStartAtRoot(env)
    requires ValidState(st) && s2 == ApplyDomainScript(env, st, a) && s2.index != EOF
    requires s2.list[s2.index].profile == q
    ensures ApplyDomainScript(env, st, a + (if p != q then [ProfileLine(p)] else []) + [""])
         == ScriptState(s2.list[s2.index := s2.list[s2.index].(profile := p)], s2.index)
  {
    var i := s2.index;
    var s3 := ScriptState(s2.list[i := s2.list[i].(profile := p)], i);
    var prof := if p != q then [ProfileLine(p)] else [];
    if p != q {
      AppendLine(env, st, a, ProfileLine(p), s2);
      ApplyProfileLine(env, s2, p);
    } else {
      assert a + prof == a;
      assert s2.list[i].(profile := p) == s2.list[i];
      assert s3 == s2;
    }
    AppendBlank(env, st, a + prof, s3);
  }

  /** A changed block with something to print rewrites the selected record. */
  lemma ApplyChangedBody(env: Env, st: ScriptState, d: DomainInfo, b: DomainInfo, i: nat)
    requires DomainDefsStartAtRoot(env)
    requires ValidState(st) && PlainRecord(env, d) && PlainRecord(env, b)
    requires i < |st.list| && st.list[i] == b && b.name == d.name
    requires forall j :: 0 <= j < i ==> st.list[j].name != d.name
    requires ChangedBlock(d, b) != []
    ensures ApplyDomainScript(env, st, ChangedBlock(d, b)).list
         == st.list[i := b.(acl := ChangedAcl(d, b), profile := d.profile)]
  {
    var c := NoBreakLines(d.acl, Wrap(b.acl));
    var a := [d.name, ""] + (DeleteLines(Somes(c.base)) + Somes(c.proc));
    ChangedBlockShape(d, b);
    ChangedHeadAcl(env, st, d, b, i);
    var e := b.(acl := ChangedAcl(d, b));
    var s2 := ScriptState(st.list[i := e], i);
    ChangedTail(env, st, a, s2, d.profile, b.profile);
    UpdateProfile(st.list, i, e, d.profile);
  }

  /** A changed block that prints something: head, body, blank line. */
  lemma ChangedBlockShape(d: DomainInfo, b: DomainInfo)
    requires ChangedBlock(d, b) != []
    ensures var c := NoBreakLines(d.acl, Wrap(b.acl));
            ChangedBlock(d, b)
            == [d.name, ""] + (DeleteLines(Somes(c.base)) + Somes(c.proc))
               + (if d.profile != b.profile then [ProfileLine(d.profile)] else []) + [""]
  {
  }

  lemma UpdateProfile(list: seq<DomainInfo>, i: nat, e: DomainInfo, p: Byte)
    requires i < |list|
    ensures list[i := e][i := list[i := e][i].(profile := p)] == list[i := e.(profile := p)]
  {
  }

  /** Any changed block, empty or not, rewrites only the selected record. */
  lemma ApplyChangedBlock(env: Env, st: ScriptState, d: DomainInfo, b: DomainInfo, i: nat)
    requires DomainDefsStartAtRoot(env)
    requires ValidState(st) && PlainStore(env, st.list) && PlainRecord(env, d)
    requires i < |st.list| && st.list[i] == b && b.name == d.name
    ensures ApplyDomainScript(env, st, ChangedBlock(d, b)).list
         == st.list[i := b.(acl := ChangedAcl(d, b), profile := d.profile)]
  {
    if ChangedBlock(d, b) == [] {
      ChangedBlockNothing(d, b);
      assert st.list[i := st.list[i]] == st.list;
    } else {
      assert PlainRecord(env, b);
      assert forall j :: 0 <= j < i ==> st.list[j].name != d.name;
      ApplyChangedBody(env, st, d, b, i);
    }
  }

  /** A changed block that prints nothing leaves the record as it is. */
  lemma ChangedBlockNothing(d: DomainInfo, b: DomainInfo)
    requires ChangedBlock(d, b) == []
    ensures b.(acl := ChangedAcl(d, b), profile := d.profile) == b
  {
    var c := NoBreakLines(d.acl, Wrap(b.acl));
    assert |DeleteLines(Somes(c.base))| == 0 && Somes(c.proc) == [];
    assert DeleteAll(b.acl, []) == b.acl;
    assert ChangedAcl(d, b) == b.acl + [];
  }

  /** The record a changed block leaves is plain and has the proc record's content. */
  lemma ChangedRecord(env: Env, d: DomainInfo, b: DomainInfo)
    requires PlainRecord(env, d) && PlainRecord(env, b) && b.name == d.name
    ensures var e := b.(acl := ChangedAcl(d, b), profile := d.profile);
            PlainRecord(env, e) && SameContent(e, d)
  {
    ChangedAclMembers(d, b);
  }

  /** Every name of `list` is a proc name. */
  predicate NamesIn(list: seq<DomainInfo>, proc: seq<DomainInfo>)
  {
    forall k :: 0 <= k < |list| ==> FindByName(proc, list[k].name) != EOF
  }

  /** Where the third loop has got to after the first `n` proc records:
      every proc name is stored; a record the loop has reached, or one the
      base lacks, has the proc record's content, the others are the base's. */
  ghost predicate ChangedSoFar(list: seq<DomainInfo>, proc: seq<DomainInfo>, base: seq<DomainInfo>, n: nat)
  {
    forall j :: 0 <= j < |proc| ==>
      var i := FindByName(list, proc[j].name);
      var bi := FindByName(base, proc[j].name);
      i != EOF && (if j < n || bi == EOF then SameContent(list[i], proc[j]) else list[i] == base[bi])
  }

  /** In a list of unique names each record is the one its name finds. */
  lemma FindByNameUnique(list: seq<DomainInfo>, k: nat)
    requires UniqueNames(list) && k < |list|
    ensures FindByName(list, list[k].name) == k
  {
  }

  /** One proc record of the third loop. */
  lemma ChangedStep(env: Env, proc: seq<DomainInfo>, base: seq<DomainInfo>, st: ScriptState, n: nat, blk: seq<string>)
    requires DomainDefsStartAtRoot(env) && PlainStore(env, proc) && PlainStore(env, base) && n < |proc|
    requires ValidState(st) && PlainStore(env, st.list) && NamesIn(st.list, proc) && ChangedSoFar(st.list, proc, base, n)
    requires var bi := FindByName(base, proc[n].name);
             blk == if bi == EOF then [] else ChangedBlock(proc[n], base[bi])
    ensures var r := ApplyDomainScript(env, st, blk).list;
            PlainStore(env, r) && NamesIn(r, proc) && ChangedSoFar(r, proc, base, n + 1)
  {
    var bi := FindByName(base, proc[n].name);
    ChangedSoFarAt(st.list, proc, base, n, n);
    if bi == EOF {
      assert ApplyDomainScript(env, st, blk) == st;
      ChangedSkip(env, proc, base, st.list, n);
    } else {
      ChangedEdit(env, proc, base, st, n, bi);
    }
  }

  /** A proc record the base lacks prints nothing in the third loop. */
  lemma ChangedSkip(env: Env, proc: seq<DomainInfo>, base: seq<DomainInfo>, list: seq<DomainInfo>, n: nat)
    requires PlainStore(env, proc) && n < |proc| && FindByName(base, proc[n].name) == EOF
    requires PlainStore(env, list) && NamesIn(list, proc) && ChangedSoFar(list, proc, base, n)
    ensures ChangedSoFar(list, proc, base, n + 1)
  {
    ChangedSoFarAt(list, proc, base, n, n);
    var i := FindByName(list, proc[n].name);
    assert list[i := list[i]] == list;
    ChangedSoFarNext(env, list, proc, base, n, i, list);
  }

  /** A proc record the base has: its changed block rewrites its record. */
  lemma ChangedEdit(env: Env, proc: seq<DomainInfo>, base: seq<DomainInfo>, st: ScriptState, n: nat, bi: nat)
    requires DomainDefsStartAtRoot(env) && PlainStore(env, proc) && PlainStore(env, base) && n < |proc|
    requires ValidState(st) && PlainStore(env, st.list) && NamesIn(st.list, proc) && ChangedSoFar(st.list, proc, base, n)
    requires bi == FindByName(base, proc[n].name) && bi < |base|
    ensures var r := ApplyDomainScript(env, st, ChangedBlock(proc[n], base[bi])).list;
            PlainStore(env, r) && NamesIn(r, proc) && ChangedSoFar(r, proc, base, n + 1)
  {
    var d := proc[n];
    var b := base[bi];
    ChangedSoFarAt(st.list, proc, base, n, n);
    var i := FindByName(st.list, d.name);
    var e := b.(acl := ChangedAcl(d, b), profile := d.profile);
    ApplyChangedBlock(env, st, d, b, i);
    ChangedRecord(env, d, b);
    ChangedSoFarNext(env, st.list, proc, base, n, i, st.list[i := e]);
  }

  lemma ChangedSoFarAt(list: seq<DomainInfo>, proc: seq<DomainInfo>, base: seq<DomainInfo>, n: nat, j: nat)
    requires ChangedSoFar(list, proc, base, n) && j < |proc|
    ensures var i := FindByName(list, proc[j].name);
            var bi := FindByName(base, proc[j].name);
            i != EOF && (if j < n || bi == EOF then SameContent(list[i], proc[j]) else list[i] == base[bi])
  {
  }

  /** Giving the record of proc[n] proc's content moves the third loop on by one. */
  lemma ChangedSoFarNext(env: Env, list: seq<DomainInfo>, proc: seq<DomainInfo>, base: seq<DomainInfo>, n: nat, i: nat, r: seq<DomainInfo>)
    requires PlainStore(env, proc) && n < |proc|
    requires PlainStore(env, list) && NamesIn(list, proc) && ChangedSoFar(list, proc, base, n)
    requires i == FindByName(list, proc[n].name) && i < |list|
    requires |r| == |list| && r == list[i := r[i]] && r[i].name == list[i].name
    requires PlainRecord(env, r[i]) && SameContent(r[i], proc[n])
    ensures PlainStore(env, r) && NamesIn(r, proc) && ChangedSoFar(r, proc, base, n + 1)
  {
    UpdateKeepsStore(env, list, proc, i, r);
    assert UniqueNames(proc) && UniqueNames(r);
    forall j | 0 <= j < |proc|
      ensures var ii := FindByName(r, proc[j].name);
              var bj := FindByName(base, proc[j].name);
              ii != EOF && (if j < n + 1 || bj == EOF then SameContent(r[ii], proc[j]) else r[ii] == base[bj])
    {
      ChangedSoFarAt(list, proc, base, n, j);
      ChangedNextAt(list, proc, base, n, i, r, j);
    }
  }

  /** The step of ChangedSoFarNext for the proc record at `j`. */
  lemma ChangedNextAt(list: seq<DomainInfo>, proc: seq<DomainInfo>, base: seq<DomainInfo>, n: nat, i: nat, r: seq<DomainInfo>, j: nat)
    requires UniqueNames(proc) && n < |proc| && j < |proc|
    requires i == FindByName(list, proc[n].name) && i < |list|
    requires |r| == |list| && UniqueNames(r) && r == list[i := r[i]]
    requires forall k :: 0 <= k < |r| ==> r[k].name == list[k].name
    requires SameContent(r[i], proc[n])
    requires var ii := FindByName(list, proc[j].name);
             var bj := FindByName(base, proc[j].name);
             ii != EOF && (if j < n || bj == EOF then SameContent(list[ii], proc[j]) else list[ii] == base[bj])
    ensures var ii := FindByName(r, proc[j].name);
            var bj := FindByName(base, proc[j].name);
            ii != EOF && (if j < n + 1 || bj == EOF then SameContent(r[ii], proc[j]) else r[ii] == base[bj])
  {
    var ii := FindByName(list, proc[j].name);
    FindByNameUnique(r, ii);
    if ii == i {
      assert j == n;
    } else {
      assert j != n && r[ii] == list[ii];
    }
  }

  /** Replacing one record by a plain one of the same name keeps the store plain. */
  lemma UpdateKeepsStore(env: Env, list: seq<DomainInfo>, proc: seq<DomainInfo>, i: nat, r: seq<DomainInfo>)
    requires PlainStore(env, list) && NamesIn(list, proc) && i < |list|
    requires |r| == |list| && r == list[i := r[i]] && r[i].name == list[i].name
    requires PlainRecord(env, r[i])
    ensures PlainStore(env, r) && NamesIn(r, proc)
    ensures forall k :: 0 <= k < |r| ==> r[k].name == list[k].name
  {
    forall k | 0 <= k < |r| ensures PlainRecord(env, r[k]) && r[k].name == list[k].name {
      if k != i {
        assert r[k] == list[k];
      }
    }
  }

  /** The third loop's blocks for the first `n` proc records give each of
      them the proc record's content. */
  lemma {:induction false} ChangedDomainsApply(env: Env, proc: seq<DomainInfo>, base: seq<DomainInfo>, st: ScriptState, n: nat)
    requires DomainDefsStartAtRoot(env) && PlainStore(env, proc) && PlainStore(env, base) && n <= |proc|
    requires ValidState(st) && PlainStore(env, st.list) && NamesIn(st.list, proc) && ChangedSoFar(st.list, proc, base, 0)
    ensures var r := ApplyDomainScript(env, st, ChangedDomains(proc[..n], base)).list;
            PlainStore(env, r) && NamesIn(r, proc) && ChangedSoFar(r, proc, base, n)
  {
    if n == 0 {
      assert proc[..0] == [];
    } else {
      ChangedDomainsApply(env, proc, base, st, n - 1);
      var mid := ApplyDomainScript(env, st, ChangedDomains(proc[..n - 1], base));
      ChangedPhaseStep(env, proc, base, st, n, mid);
    }
  }

  /** The blocks for proc[n - 1] after those for the records before it. */
  lemma ChangedPhaseStep(env: Env, proc: seq<DomainInfo>, base: seq<DomainInfo>, st: ScriptState, n: nat, mid: ScriptState)
    requires DomainDefsStartAtRoot(env) && PlainStore(env, proc) && PlainStore(env, base) && 0 < n <= |proc|
    requires ValidState(st) && mid == ApplyDomainScript(env, st, ChangedDomains(proc[..n - 1], base))
    requires PlainStore(env, mid.list) && NamesIn(mid.list, proc) && ChangedSoFar(mid.list, proc, base, n - 1)
    ensures var r := ApplyDomainScript(env, st, ChangedDomains(proc[..n], base)).list;
            PlainStore(env, r) && NamesIn(r, proc) && ChangedSoFar(r, proc, base, n)
  {
    var d := proc[n - 1];
    var bi := FindByName(base, d.name);
    var blk := if bi == EOF then [] else ChangedBlock(d, base[bi]);
    ChangedSnoc(proc, base, n);
    ScriptThen(env, st, ChangedDomains(proc[..n - 1], base), blk, mid);
    ChangedStep(env, proc, base, mid, n - 1, blk);
  }

  lemma ChangedSnoc(proc: seq<DomainInfo>, base: seq<DomainInfo>, n: nat)
    requires 0 < n <= |proc|
    ensures var d := proc[n - 1];
            var bi := FindByName(base, d.name);
            ChangedDomains(proc[..n], base)
            == ChangedDomains(proc[..n - 1], base) + (if bi == EOF then [] else ChangedBlock(d, base[bi]))
  {
    assert proc[..n][..n - 1] == proc[..n - 1];
  }

  /** After the first two loops the store holds the base records proc keeps
      and then the records proc adds. */
  lemma DiffStartState(env: Env, proc: seq<DomainInfo>, base: seq<DomainInfo>, list: seq<DomainInfo>)
    requires PlainStore(env, proc) && PlainStore(env, base)
    requires list == WithNames(base, proc, true) + WithNames(proc, base, false)
    ensures PlainStore(env, list) && NamesIn(list, proc) && ChangedSoFar(list, proc, base, 0)
  {
    var kept := WithNames(base, proc, true);
    var added := WithNames(proc, base, false);
    WithNamesUnique(base, proc, true);
    WithNamesUnique(proc, base, false);
    WithNamesFacts(env, base, proc, true);
    WithNamesFacts(env, proc, base, false);
    StartStore(env, proc, base, kept, added, list);
    StartChanged(proc, base, kept, added, list);
  }

  /** What the records picked from a plain store are. */
  lemma WithNamesFacts(env: Env, list: seq<DomainInfo>, other: seq<DomainInfo>, present: bool)
    requires PlainStore(env, list)
    ensures var w := WithNames(list, other, present);
            forall k :: 0 <= k < |w| ==>
              PlainRecord(env, w[k]) && FindByName(list, w[k].name) != EOF && (FindByName(other, w[k].name) != EOF) == present
  {
    var w := WithNames(list, other, present);
    forall k | 0 <= k < |w|
      ensures PlainRecord(env, w[k]) && FindByName(list, w[k].name) != EOF
    {
      assert w[k] in w;
      var m :| 0 <= m < |list| && list[m] == w[k];
    }
  }

  /** The kept and the added records together form a plain store of proc names. */
  lemma StartStore(env: Env, proc: seq<DomainInfo>, base: seq<DomainInfo>, kept: seq<DomainInfo>, added: seq<DomainInfo>,
                   list: seq<DomainInfo>)
    requires list == kept + added && UniqueNames(kept) && UniqueNames(added)
    requires forall k :: 0 <= k < |kept| ==>
               PlainRecord(env, kept[k]) && FindByName(base, kept[k].name) != EOF && FindByName(proc, kept[k].name) != EOF
    requires forall k :: 0 <= k < |added| ==>
               PlainRecord(env, added[k]) && FindByName(proc, added[k].name) != EOF && FindByName(base, added[k].name) == EOF
    ensures PlainStore(env, list) && NamesIn(list, proc)
  {
    forall k | 0 <= k < |list| ensures PlainRecord(env, list[k]) && FindByName(proc, list[k].name) != EOF {
      if k < |kept| {
        assert list[k] == kept[k];
      } else {
        assert list[k] == added[k - |kept|];
      }
    }
    forall i, j | 0 <= i < j < |list| ensures list[i].name != list[j].name {
      if j < |kept| {
        assert list[i] == kept[i] && list[j] == kept[j];
      } else if i >= |kept| {
        assert list[i] == added[i - |kept|] && list[j] == added[j - |kept|];
      } else {
        assert list[i] == kept[i] && list[j] == added[j - |kept|];
      }
    }
  }

  /** Before the third loop each proc name finds proc's own record when the
      base lacks it and the base record otherwise. */
  lemma StartChanged(proc: seq<DomainInfo>, base: seq<DomainInfo>, kept: seq<DomainInfo>, added: seq<DomainInfo>,
                     list: seq<DomainInfo>)
    requires kept == WithNames(base, proc, true) && added == WithNames(proc, base, false)
    requires list == kept + added && UniqueNames(list)
    ensures ChangedSoFar(list, proc, base, 0)
  {
    forall j | 0 <= j < |proc|
      ensures var i := FindByName(list, proc[j].name);
              var bi := FindByName(base, proc[j].name);
              i != EOF && (if j < 0 || bi == EOF then SameContent(list[i], proc[j]) else list[i] == base[bi])
    {
      var bi := FindByName(base, proc[j].name);
      var x := if bi == EOF then proc[j] else base[bi];
      assert FindByName(proc, proc[j].name) != EOF;
      if bi != EOF {
        assert base[bi] in kept;
      } else {
        assert proc[j] in added;
      }
      assert x in list;
      var k :| 0 <= k < |list| && list[k] == x;
      FindByNameUnique(list, k);
    }
  }

  /** Applying the diff of `proc` against `base` as an edit script onto
      `base` gives a store with exactly proc's domain names, each with
      proc's profile and a permutation of proc's ACL lines. */
  lemma DomainDiffApplies(env: Env, proc: seq<DomainInfo>, base: seq<DomainInfo>)
    requires DomainDefsStartAtRoot(env) && PlainStore(env, proc) && PlainStore(env, base)
    ensures var r := ApplyDomainScript(env, ScriptState(base, EOF), DomainDiff(proc, base)).list;
            && PlainStore(env, r)
            && (forall k :: 0 <= k < |r| ==> FindByName(proc, r[k].name) != EOF)
            && (forall j :: 0 <= j < |proc| ==>
                  var i := FindByName(r, proc[j].name);
                  i != EOF && r[i].profile == proc[j].profile && multiset(r[i].acl) == multiset(proc[j].acl))
  {
    var s0 := ScriptState(base, EOF);
    var rem := RemovedDomains(proc, base);
    var add := AddedDomains(proc, base);
    var kept := WithNames(base, proc, true);
    RemovedDomainsApply(env, proc, base, |base|);
    assert base[..|base|] == base && base[|base|..] == [] && kept + [] == kept;
    var s1 := ScriptState(kept, EOF);
    forall k | 0 <= k < |kept| ensures FindByName(base, kept[k].name) != EOF {
      assert kept[k] in kept;
    }
    AddedDomainsApply(env, proc, base, s1, |proc|);
    assert proc[..|proc|] == proc;
    var s2 := ApplyDomainScript(env, s1, add);
    ScriptThen(env, s0, rem, add, s1);
    DiffStartState(env, proc, base, s2.list);
    ChangedDomainsApply(env, proc, base, s2, |proc|);
    ScriptThen(env, s0, rem + add, ChangedDomains(proc, base), s2);
    var r := ApplyDomainScript(env, s2, ChangedDomains(proc, base)).list;
    DiffEndState(env, proc, base, r);
  }

  /** The store the third loop leaves has proc's content, name by name. */
  lemma DiffEndState(env: Env, proc: seq<DomainInfo>, base: seq<DomainInfo>, r: seq<DomainInfo>)
    requires PlainStore(env, proc) && PlainStore(env, r) && ChangedSoFar(r, proc, base, |proc|)
    ensures forall j :: 0 <= j < |proc| ==>
              var i := FindByName(r, proc[j].name);
              i != EOF && r[i].profile == proc[j].profile && multiset(r[i].acl) == multiset(proc[j].acl)
  {
    forall j | 0 <= j < |proc|
      ensures var i := FindByName(r, proc[j].name);
              i != EOF && r[i].profile == proc[j].profile && multiset(r[i].acl) == multiset(proc[j].acl)
    {
      var i := FindByName(r, proc[j].name);
      assert PlainRecord(env, r[i]) && PlainRecord(env, proc[j]);
      SameMembersMultiset(r[i].acl, proc[j].acl);
    }
  }

  // ---------------------------------------------------------------
  // move_proc_to_file
  // ---------------------------------------------------------------

  /** The lines freadline yields, without the blank ones. */
  function NonBlank(s: seq<string>): (r: seq<string>)
    ensures forall x :: x in r <==> x in s && x != ""
  {
    if s == [] then []
    else NonBlank(s[..|s| - 1]) + (if s[|s| - 1] != "" then [s[|s| - 1]] else [])
  }

  /** The lines move_proc_to_file writes. */
  function LineDiff(procLines: seq<string>, baseLines: seq<string>): seq<string>
  {
    var c := CancelLines(NonBlank(procLines), Wrap(NonBlank(baseLines)));
    DeleteLines(Somes(c.base)) + Somes(c.proc)
  }

  /** The `delete` lines of a line diff name the base lines left over after
      cancelling one base line per equal proc line; the plain lines are the
      proc lines left over. */
  lemma LineDiffMultisets(procLines: seq<string>, baseLines: seq<string>)
    ensures var p := NonBlank(procLines);
            var b := NonBlank(baseLines);
            var c := CancelLines(p, Wrap(b));
            && LineDiff(procLines, baseLines) == DeleteLines(Somes(c.base)) + Somes(c.proc)
            && multiset(Somes(c.base)) == multiset(b) - multiset(p)
            && multiset(Somes(c.proc)) == multiset(p) - multiset(b)
  {
    CancelLinesMultisets(NonBlank(procLines), NonBlank(baseLines));
  }

  /** The line-by-line diff of two files, as move_proc_to_file computes it. */
  method MoveProcToFile(procLines: seq<string>, baseLines: seq<string>) returns (output: seq<string>)
    ensures output == LineDiff(procLines, baseLines)
  {
    var p := ReadNonBlank(procLines);
    var b := ReadNonBlank(baseLines);
    var procList := new Option<string>[|p|](k requires 0 <= k < |p| => Some(p[k]));
    var baseList := new Option<string>[|b|](k requires 0 <= k < |b| => Some(b[k]));
    CancelAll(procList, baseList, p, b);
    var deletes := EmitDeletes(baseList);
    var adds := EmitRemaining(procList);
    output := deletes + adds;
  }

  /** move_proc_to_file's nested cancellation loops over the two arrays. */
  method CancelAll(procList: array<Option<string>>, baseList: array<Option<string>>, p: seq<string>, b: seq<string>)
    requires procList != baseList
    requires procList[..] == Wrap(p) && baseList[..] == Wrap(b)
    modifies procList, baseList
    ensures procList[..] == CancelLines(p, Wrap(b)).proc
    ensures baseList[..] == CancelLines(p, Wrap(b)).base
  {
    var i := 0;
    while i < |p|
      invariant 0 <= i <= |p| == procList.Length
      invariant procList[..i] == CancelLines(p[..i], Wrap(b)).proc
      invariant forall k :: i <= k < |p| ==> procList[k] == Some(p[k])
      invariant baseList[..] == CancelLines(p[..i], Wrap(b)).base
    {
      ghost var c := CancelLines(p[..i], Wrap(b));
      CancelLinesSnoc(p, i, Wrap(b));
      CancelRow(procList, baseList, i);
      assert procList[..i] == c.proc;
      assert procList[..i + 1] == procList[..i] + [procList[i]];
      i := i + 1;
    }
    assert p[..i] == p;
    assert procList[..i] == procList[..];
  }

  /** One more proc line cancels against the first equal base slot left. */
  lemma CancelLinesSnoc(p: seq<string>, i: nat, bs: seq<Option<string>>)
    requires i < |p|
    ensures var c := CancelLines(p[..i], bs);
            CancelLines(p[..i + 1], bs) ==
              match FirstSomeFrom(c.base, p[i], 0)
              case None => Cancelled(c.proc + [Some(p[i])], c.base)
              case Some(j) => Cancelled(c.proc + [None], c.base[j := None])
  {
    assert p[..i + 1][..i] == p[..i];
  }

  /** One row of move_proc_to_file's cancellation loop, with `break`. */
  method CancelRow(procList: array<Option<string>>, baseList: array<Option<string>>, i: nat)
    requires procList != baseList
    requires i < procList.Length && procList[i].Some?
    modifies procList, baseList
    ensures match FirstSomeFrom(old(baseList[..]), old(procList[i]).value, 0)
            case None => procList[..] == old(procList[..]) && baseList[..] == old(baseList[..])
            case Some(j) => procList[..] == old(procList[..])[i := None] && baseList[..] == old(baseList[..])[j := None]
  {
    var x := procList[i].value;
    var j := 0;
    while j < baseList.Length
      invariant 0 <= j <= baseList.Length
      invariant forall k :: 0 <= k < j ==> baseList[k] != Some(x)
      invariant procList[..] == old(procList[..]) && baseList[..] == old(baseList[..])
    {
      if procList[i] == None || baseList[j] == None || procList[i].value != baseList[j].value {
        j := j + 1;
        continue;
      }
      assert FirstSomeFrom(old(baseList[..]), x, 0) == Some(j);
      procList[i] := None;
      baseList[j] := None;
      return;
    }
  }

  /** `fprintf(file_fp, "delete %s\n", ...)` for every base line left. */
  method EmitDeletes(baseList: array<Option<string>>) returns (output: seq<string>)
    ensures output == DeleteLines(Somes(baseList[..]))
  {
    output := [];
    var k := 0;
    while k < baseList.Length
      invariant 0 <= k <= baseList.Length
      invariant output == DeleteLines(Somes(baseList[..k]))
    {
      assert baseList[..k + 1][..k] == baseList[..k];
      if baseList[k].Some? {
        output := output + [DELETE_PREFIX + baseList[k].value];
      }
      k := k + 1;
    }
    assert baseList[..k] == baseList[..];
  }

  /** `fprintf(file_fp, "%s\n", ...)` for every proc line left. */
  method EmitRemaining(procList: array<Option<string>>) returns (output: seq<string>)
    ensures output == Somes(procList[..])
  {
    output := [];
    var k := 0;
    while k < procList.Length
      invariant 0 <= k <= procList.Length
      invariant output == Somes(procList[..k])
    {
      assert procList[..k + 1][..k] == procList[..k];
      if procList[k].Some? {
        output := output + [procList[k].value];
      }
      k := k + 1;
    }
    assert procList[..k] == procList[..];
  }

  /** freadline's loop in move_proc_to_file: keep the lines that are not blank. */
  method ReadNonBlank(lines: seq<string>) returns (r: seq<string>)
    ensures r == NonBlank(lines)
  {
    r := [];
    var i := 0;
    while i < |lines|
      invariant 0 <= i <= |lines|
      invariant r == NonBlank(lines[..i])
    {
      assert lines[..i + 1][..i] == lines[..i];
      if lines[i] != "" {
        r := r + [lines[i]];
      }
      i := i + 1;
    }
    assert lines[..i] == lines;
  }
}
