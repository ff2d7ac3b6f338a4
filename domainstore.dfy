/** The in-memory domain policy (`struct domain_policy`): an ordered list of
    domain records, each with an ordered, duplicate-free list of ACL lines.
    Interned strings are compared by value; `pathcmp` is string inequality. */
module DomainStore {
  import opened CStrings
  import opened Primitives
  import opened Sorting

  const EINVAL: int := 22
  const ENOENT: int := 2

  type Byte = x: int | 0 <= x < 256

  /** `struct domain_info`. */
  datatype DomainInfo = DomainInfo(
    name: string,
    /** string_ptr[0 .. string_count) */
    acl: seq<string>,
    profile: Byte,
    /** an initializer-source redirect entry */
    isDis: bool,
    /** a synthesized ("deleted") ancestor entry */
    isDd: bool,
    /** a keeper domain */
    isDk: bool,
    /** an initializer-target domain */
    isDit: bool,
    /** an unreachable domain */
    isDu: bool,
    /** the initializer rule (by index) that makes it unreachable */
    dI: Option<nat>,
    /** the keeper rule (by index) that makes it unreachable */
    dK: Option<nat>,
    number: int)

  /** A zeroed record carrying the lookup key (the `memset` in find_or_assign_new_domain). */
  function NewDomain(name: string, isDis: bool, isDd: bool): DomainInfo
  {
    DomainInfo(name, [], 0, isDis, isDd, false, false, false, None, None, 0)
  }

  function NameOf(d: DomainInfo): string
  {
    d.name
  }

  function Identity(s: string): string
  {
    s
  }

  predicate NoDuplicates(s: seq<string>)
  {
    forall i, j :: 0 <= i < j < |s| ==> s[i] != s[j]
  }

  /** The lookup key of find_domain: name, is_dis and is_dd. */
  predicate HasKey(d: DomainInfo, name: string, isDis: bool, isDd: bool)
  {
    d.name == name && d.isDis == isDis && d.isDd == isDd
  }

  function FindDomainFrom(list: seq<DomainInfo>, name: string, isDis: bool, isDd: bool, from: nat): (r: int)
    decreases |list| - from
    ensures r == EOF || from <= r < |list|
    ensures r != EOF ==> HasKey(list[r], name, isDis, isDd)
    ensures r != EOF ==> forall j :: from <= j < r ==> !HasKey(list[j], name, isDis, isDd)
    ensures r == EOF ==> forall j :: from <= j < |list| ==> !HasKey(list[j], name, isDis, isDd)
  {
    if from >= |list| then EOF
    else if HasKey(list[from], name, isDis, isDd) then from
    else FindDomainFrom(list, name, isDis, isDd, from + 1)
  }

  /** find_domain: the first index whose record has the key, or EOF. */
  function FindDomain(list: seq<DomainInfo>, name: string, isDis: bool, isDd: bool): (r: int)
    ensures r == EOF || 0 <= r < |list|
    ensures r != EOF ==> HasKey(list[r], name, isDis, isDd)
    ensures r != EOF ==> forall j :: 0 <= j < r ==> !HasKey(list[j], name, isDis, isDd)
    ensures r == EOF <==> forall j :: 0 <= j < |list| ==> !HasKey(list[j], name, isDis, isDd)
  {
    FindDomainFrom(list, name, isDis, isDd, 0)
  }

  /** find_domain_by_ptr: the first index with that name, whatever its flags. */
  function FindByName(list: seq<DomainInfo>, name: string): (r: int)
    ensures r == EOF || 0 <= r < |list|
    ensures r != EOF ==> list[r].name == name
    ensures r != EOF ==> forall j :: 0 <= j < r ==> list[j].name != name
    ensures r == EOF <==> forall j :: 0 <= j < |list| ==> list[j].name != name
  {
    if |list| == 0 then EOF
    else
      var r := FindByName(list[..|list| - 1], name);
      if r != EOF then r
      else if list[|list| - 1].name == name then |list| - 1
      else EOF
  }

  /** The new list and the return code of one store operation. */
  datatype Outcome = Outcome(list: seq<DomainInfo>, status: int)

  /** add_string_entry's effect on the list and its return code. */
  function AddEntryOutcome(list: seq<DomainInfo>, entry: string, index: int): (r: Outcome)
    ensures r.status == 0 <==> 0 <= index < |list| && entry != ""
    ensures r.status != 0 ==> r.status == -EINVAL && r.list == list
    ensures |r.list| == |list|
    ensures forall k :: 0 <= k < |list| && k != index ==> r.list[k] == list[k]
    ensures r.status == 0 ==> r.list[index] == list[index].(acl := r.list[index].acl)
    ensures r.status == 0 ==> list[index].acl <= r.list[index].acl
    ensures r.status == 0 ==> forall x :: x in r.list[index].acl <==> x in list[index].acl || x == entry
    ensures r.status == 0 ==>
      |r.list[index].acl| == |list[index].acl| + (if entry in list[index].acl then 0 else 1)
    ensures r.status == 0 && NoDuplicates(list[index].acl) ==> NoDuplicates(r.list[index].acl)
  {
    if index < 0 || index >= |list| || entry == "" then Outcome(list, -EINVAL)
    else if entry in list[index].acl then Outcome(list, 0)
    else Outcome(list[index := list[index].(acl := list[index].acl + [entry])], 0)
  }

  /** The position of the first occurrence of `x` in `s`. */
  function FirstPosition(s: seq<string>, x: string): (i: nat)
    requires x in s
    ensures i < |s| && s[i] == x && x !in s[..i]
  {
    if s[0] == x then 0
    else
      var k := FirstPosition(s[1..], x);
      assert s[1..][..k] == s[1..k + 1];
      k + 1
  }

  lemma FirstPositionAt(s: seq<string>, x: string, i: nat)
    requires i < |s| && s[i] == x && x !in s[..i]
    ensures FirstPosition(s, x) == i
  {
  }

  /** `s` with its first occurrence of `x` taken out and the rest kept in order. */
  function RemoveFirst(s: seq<string>, x: string): (r: seq<string>)
    requires x in s
    ensures |r| == |s| - 1
    ensures multiset(r) == multiset(s) - multiset{x}
  {
    var i := FirstPosition(s, x);
    assert s == s[..i] + [x] + s[i + 1..];
    assert multiset(s) == multiset(s[..i]) + multiset{x} + multiset(s[i + 1..]);
    s[..i] + s[i + 1..]
  }

  /** In a duplicate-free list, removing `x` removes every `x` and keeps the list duplicate-free. */
  lemma RemoveFirstNoDuplicates(s: seq<string>, x: string)
    requires x in s && NoDuplicates(s)
    ensures NoDuplicates(RemoveFirst(s, x))
    ensures forall y :: y in RemoveFirst(s, x) <==> y in s && y != x
  {
    var i := FirstPosition(s, x);
    assert RemoveFirst(s, x) == s[..i] + s[i + 1..];
    DropAtNoDuplicates(s, i);
    DropAtMembers(s, i);
  }

  lemma DropAtNoDuplicates(s: seq<string>, i: nat)
    requires i < |s| && NoDuplicates(s)
    ensures NoDuplicates(s[..i] + s[i + 1..])
  {
    var r := s[..i] + s[i + 1..];
    forall a, b | 0 <= a < b < |r| ensures r[a] != r[b] {
      var a' := if a < i then a else a + 1;
      var b' := if b < i then b else b + 1;
      assert r[a] == s[a'] && r[b] == s[b'];
    }
  }

  /** Without duplicates, dropping position `i` drops exactly the line there. */
  lemma DropAtMembers(s: seq<string>, i: nat)
    requires i < |s| && NoDuplicates(s)
    ensures forall y :: y in s[..i] + s[i + 1..] <==> y in s && y != s[i]
  {
    var r := s[..i] + s[i + 1..];
    forall y ensures y in r <==> y in s && y != s[i] {
      if y in r {
        var k :| 0 <= k < |r| && r[k] == y;
        var k' := if k < i then k else k + 1;
        assert s[k'] == y && k' != i;
      }
      if y in s && y != s[i] {
        var k :| 0 <= k < |s| && s[k] == y;
        assert k != i;
        assert r[if k < i then k else k - 1] == y;
      }
    }
  }

  /** del_string_entry's effect on the list and its return code. */
  function DelEntryOutcome(list: seq<DomainInfo>, entry: string, index: int): (r: Outcome)
    ensures r.status == -EINVAL <==> !(0 <= index < |list|) || entry == ""
    ensures r.status == -ENOENT <==> 0 <= index < |list| && entry != "" && entry !in list[index].acl
    ensures r.status == 0 <==> 0 <= index < |list| && entry != "" && entry in list[index].acl
    ensures r.status != 0 ==> r.list == list
    ensures |r.list| == |list|
    ensures forall k :: 0 <= k < |list| && k != index ==> r.list[k] == list[k]
    ensures r.status == 0 ==> r.list[index] == list[index].(acl := RemoveFirst(list[index].acl, entry))
  {
    if index < 0 || index >= |list| || entry == "" then Outcome(list, -EINVAL)
    else if entry !in list[index].acl then Outcome(list, -ENOENT)
    else Outcome(list[index := list[index].(acl := RemoveFirst(list[index].acl, entry))], 0)
  }

  /** find_or_assign_new_domain's effect on the list and the index it returns. */
  function AssignOutcome(env: Env, list: seq<DomainInfo>, name: string, isDis: bool, isDd: bool): (r: Outcome)
    ensures r.status == EOF || 0 <= r.status < |r.list|
    ensures r.status != EOF ==> HasKey(r.list[r.status], name, isDis, isDd)
    ensures FindDomain(list, name, isDis, isDd) != EOF ==> r == Outcome(list, FindDomain(list, name, isDis, isDd))
    ensures r.status == EOF <==> FindDomain(list, name, isDis, isDd) == EOF && !env.isCorrectDomain(name)
    ensures r.status == EOF ==> r.list == list
    ensures FindDomain(list, name, isDis, isDd) == EOF && env.isCorrectDomain(name) ==>
      r == Outcome(list + [NewDomain(name, isDis, isDd)], |list|)
  {
    var i := FindDomain(list, name, isDis, isDd);
    if i != EOF then Outcome(list, i)
    else if !env.isCorrectDomain(name) then Outcome(list, EOF)
    else Outcome(list + [NewDomain(name, isDis, isDd)], |list|)
  }

  /** Two calls with the same key return the same index and the second changes nothing. */
  lemma {:induction false} AssignTwiceSameIndex(env: Env, list: seq<DomainInfo>, name: string, isDis: bool, isDd: bool)
    requires AssignOutcome(env, list, name, isDis, isDd).status != EOF
    ensures var r := AssignOutcome(env, list, name, isDis, isDd);
            AssignOutcome(env, r.list, name, isDis, isDd) == r
  {
    var r := AssignOutcome(env, list, name, isDis, isDd);
    if FindDomain(list, name, isDis, isDd) == EOF {
      assert r.list == list + [NewDomain(name, isDis, isDd)];
      forall j | 0 <= j < |list| ensures !HasKey(r.list[j], name, isDis, isDd) {
        assert r.list[j] == list[j];
      }
      assert FindDomain(r.list, name, isDis, isDd) == |list|;
    }
  }

  /** No two records share a lookup key (name, is_dis, is_dd). */
  predicate UniqueKeys(list: seq<DomainInfo>)
  {
    forall i, j :: 0 <= i < j < |list| ==> !HasKey(list[j], list[i].name, list[i].isDis, list[i].isDd)
  }

  /** find_or_assign_new_domain keeps the keys unique and only appends. */
  lemma AssignKeepsKeysUnique(env: Env, list: seq<DomainInfo>, name: string, isDis: bool, isDd: bool)
    requires UniqueKeys(list)
    ensures var r := AssignOutcome(env, list, name, isDis, isDd);
            UniqueKeys(r.list) && list <= r.list
  {
    var r := AssignOutcome(env, list, name, isDis, isDd);
    if r.list != list {
      assert r.list == list + [NewDomain(name, isDis, isDd)];
      forall i, j | 0 <= i < j < |r.list| ensures !HasKey(r.list[j], r.list[i].name, r.list[i].isDis, r.list[i].isDd) {
        if j == |list| {
          assert !HasKey(list[i], name, isDis, isDd);
        } else {
          assert r.list[i] == list[i] && r.list[j] == list[j];
        }
      }
    }
  }

  /** delete_domain: the record at `index` is removed and the rest keep their order. */
  function DeleteDomainAt(list: seq<DomainInfo>, index: int): (r: seq<DomainInfo>)
  {
    if 0 <= index < |list| then list[..index] + list[index + 1..] else list
  }

  /** sort_domain_policy: the records by name, each ACL list sorted. */
  function SortedPolicy(list: seq<DomainInfo>): (r: seq<DomainInfo>)
  {
    var l := SortByKey(list, NameOf);
    seq(|l|, k requires 0 <= k < |l| => l[k].(acl := SortByKey(l[k].acl, Identity)))
  }

  lemma SortedPolicyProperties(list: seq<DomainInfo>)
    ensures var r := SortedPolicy(list);
            var l := SortByKey(list, NameOf);
            && multiset(l) == multiset(list)
            && |r| == |l|
            && SortedBy(r, NameOf)
            && forall k :: 0 <= k < |r| ==>
                 && r[k].(acl := l[k].acl) == l[k]
                 && multiset(r[k].acl) == multiset(l[k].acl)
                 && SortedBy(r[k].acl, Identity)
  {
    var r := SortedPolicy(list);
    var l := SortByKey(list, NameOf);
    SortByKeySorted(list, NameOf);
    forall k | 0 <= k < |r| ensures SortedBy(r[k].acl, Identity) {
      SortByKeySorted(l[k].acl, Identity);
    }
    assert forall k :: 0 <= k < |r| ==> NameOf(r[k]) == NameOf(l[k]);
  }

  /** The lines write_domain_policy prints for one record. */
  function PlainBlock(d: DomainInfo): seq<string>
  {
    [d.name, ""] + d.acl + [""]
  }

  /** write_domain_policy's output, line by line (each line ends in a newline). */
  function PlainText(list: seq<DomainInfo>): seq<string>
  {
    if list == [] then [] else PlainText(list[..|list| - 1]) + PlainBlock(list[|list| - 1])
  }

  /** The array idiom of delete_domain and del_string_entry: slide every
      element after `at` down by one and drop the last slot. */
  method ShiftDown<T>(s: seq<T>, at: nat) returns (r: seq<T>)
    requires at < |s|
    ensures r == s[..at] + s[at + 1..]
  {
    r := s;
    var i := at;
    while i < |s| - 1
      invariant at <= i <= |s| - 1
      invariant |r| == |s|
      invariant r[..at] == s[..at]
      invariant forall k :: at <= k < i ==> r[k] == s[k + 1]
      invariant forall k :: i <= k < |s| ==> r[k] == s[k]
    {
      r := r[i := r[i + 1]];
      i := i + 1;
    }
    r := r[..|s| - 1];
    assert r == s[..at] + s[at + 1..];
  }

  class DomainPolicy {
    /** list[0 .. list_len) */
    var list: seq<DomainInfo>
    /** list_selected: the per-domain selection bitmap of the editor */
    var selected: seq<bool>

    constructor ()
      ensures list == [] && selected == []
    {
      list := [];
      selected := [];
    }

    method AddStringEntry(entry: string, index: int) returns (r: int)
      modifies this
      ensures Outcome(list, r) == AddEntryOutcome(old(list), entry, index)
      ensures selected == old(selected)
    {
      if index < 0 || index >= |list| {
        return -EINVAL;
      }
      if entry == "" {
        return -EINVAL;
      }
      var acl := list[index].acl;
      var i := 0;
      while i < |acl|
        invariant 0 <= i <= |acl|
        invariant entry !in acl[..i]
      {
        if acl[i] == entry {
          return 0;
        }
        assert acl[..i + 1] == acl[..i] + [acl[i]];
        i := i + 1;
      }
      assert acl[..i] == acl;
      list := list[index := list[index].(acl := acl + [entry])];
      r := 0;
    }

    method DelStringEntry(entry: string, index: int) returns (r: int)
      modifies this
      ensures Outcome(list, r) == DelEntryOutcome(old(list), entry, index)
      ensures selected == old(selected)
    {
      if index < 0 || index >= |list| {
        return -EINVAL;
      }
      if entry == "" {
        return -EINVAL;
      }
      var acl := list[index].acl;
      var i := 0;
      while i < |acl|
        invariant 0 <= i <= |acl|
        invariant entry !in acl[..i]
      {
        if acl[i] != entry {
          assert acl[..i + 1] == acl[..i] + [acl[i]];
          i := i + 1;
          continue;
        }
        FirstPositionAt(acl, entry, i);
        var shifted := ShiftDown(acl, i);
        list := list[index := list[index].(acl := shifted)];
        return 0;
      }
      assert acl[..i] == acl;
      r := -ENOENT;
    }

    method ClearDomainPolicy()
      modifies this
      ensures list == [] && selected == old(selected)
    {
      list := [];
    }

    method FindOrAssignNewDomain(env: Env, name: string, isDis: bool, isDd: bool) returns (index: int)
      modifies this
      ensures Outcome(list, index) == AssignOutcome(env, old(list), name, isDis, isDd)
      ensures selected == old(selected)
    {
      index := FindDomain(list, name, isDis, isDd);
      if index >= 0 {
        return;
      }
      if !env.isCorrectDomain(name) {
        return EOF;
      }
      list := list + [NewDomain(name, isDis, isDd)];
      index := |list| - 1;
    }

    method DeleteDomain(index: int)
      modifies this
      ensures list == DeleteDomainAt(old(list), index)
      ensures 0 <= index < |old(list)| ==> |list| == |old(list)| - 1
      ensures forall k :: 0 <= k < |list| ==> list[k] == old(list)[if 0 <= index <= k then k + 1 else k]
      ensures selected == old(selected)
    {
      if 0 <= index < |list| {
        list := ShiftDown(list, index);
      }
    }

    method SortDomainPolicy()
      modifies this
      ensures list == SortedPolicy(old(list))
      ensures selected == old(selected)
    {
      var l := SortByKey(list, NameOf);
      ghost var byName := l;
      ghost var target := SortedPolicy(list);
      var i := 0;
      while i < |l|
        invariant 0 <= i <= |l| == |byName| == |target|
        invariant forall k :: 0 <= k < i ==> l[k] == target[k]
        invariant forall k :: i <= k < |l| ==> l[k] == byName[k]
      {
        assert target[i] == byName[i].(acl := SortByKey(byName[i].acl, Identity));
        l := l[i := l[i].(acl := SortByKey(l[i].acl, Identity))];
        i := i + 1;
      }
      assert l == target;
      list := l;
    }

    /** write_domain_policy. */
    method WriteDomainPolicy() returns (output: seq<string>)
      ensures output == PlainText(list)
    {
      output := [];
      var i := 0;
      while i < |list|
        invariant 0 <= i <= |list|
        invariant output == PlainText(list[..i])
      {
        assert list[..i + 1][..i] == list[..i];
        output := output + [list[i].name, ""];
        var j := 0;
        while j < |list[i].acl|
          invariant 0 <= j <= |list[i].acl|
          invariant output == PlainText(list[..i]) + [list[i].name, ""] + list[i].acl[..j]
        {
          assert list[i].acl[..j + 1] == list[i].acl[..j] + [list[i].acl[j]];
          output := output + [list[i].acl[j]];
          j := j + 1;
        }
        assert list[i].acl[..j] == list[i].acl;
        output := output + [""];
        i := i + 1;
      }
      assert list[..i] == list;
    }
  }
}
