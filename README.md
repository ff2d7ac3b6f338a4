# The ccstools policy editor's policy engine, in Dafny

This project models the in-memory policy engine in
`ccstools/ccstools.src/editpolicy.c`. That file holds the TOMOYO policy
editor and the `ccs-savepolicy`, `ccs-loadpolicy`, `ccs-diffpolicy` and
`ccs-sortpolicy` tools. The engine has six parts, each proved against a
specification function of its inputs or of the old state:

- **The domain policy store** (`struct domain_policy`, module `DomainStore`).
  - An ordered list of domain records. Each record has a name, a
    duplicate-free list of ACL lines, a profile and the flags `is_dis`,
    `is_dd`, `is_dk`, `is_dit` and `is_du`.
  - The operations that find, add, delete, sort and print records.
- **The edit-script interpreters.**
  - `handle_domain_policy` (module `DomainScript`), which understands
    `delete <domain>`, `select <domain>`, `use_profile=N`, `delete <line>`
    and plain add lines.
  - `handle_misc_policy` (module `MiscPolicyStore`), an append-if-absent /
    delete-if-present flat list.
- **The two diff engines** (module `PolicyDiff`).
  - The per-domain diff of `save_domain_policy_with_diff`.
  - The line-multiset diff of `move_proc_to_file`.
- **The exception policy** (module `Exceptions`).
  - Domain initializer and keeper rules, and their veto-style lookups
    `is_domain_initializer` and `is_domain_keeper`.
  - Path groups and address groups, with `parse_ip`.
- **The domain-graph resolver**, run once both files are loaded (modules
  `Resolver`, `Synthesis` and `PolicyLoader`). Its passes, in order:
  1. the unreachability walk;
  2. initializer-target marking;
  3. keeper marking;
  4. initializer-source synthesis;
  5. missing-ancestor synthesis;
  6. the sort by name;
  7. dense numbering.
- **The redundancy optimiser of the ACL editor** (modules `Directives` and
  `Optimizer`): `find_directive`, `split_acl`, `compare_path`,
  `compare_address` and `try_optimize`.

Where the source updates state in place, the model does too:
- `DomainPolicy`, `MiscPolicy` and `ExceptionPolicy` are classes whose
  methods reassign `seq` fields.
- `try_optimize` sets flags in an `array`.
- `move_proc_to_file` nulls slots of two arrays.

Each method's `ensures` ties the new state to a function of the old state.
The lemmas beside those functions state what the source promises.

The helpers the engine calls but does not define are fields of `Primitives.Env`
and are left uninterpreted:
- `is_correct_domain`;
- `is_correct_path` (in its three uses);
- `is_domain_def`;
- the `is_patterned` flag;
- `path_matches_pattern`;
- `normalize_line`.

Every result holds for every choice of them, unless a lemma names the one
property it needs. `DomainDefsStartAtRoot` is that property: every domain
definition begins with the root domain's name.

Other modelling choices:
- Interned strings (`savename`) are compared by value.
- `pathcmp` is string inequality.
- `str_starts` strips the prefix it finds.
- Files and sockets are sequences of lines. A file that cannot be opened is
  the empty sequence.
- The keyword table, the keyword spellings and the root name `<kernel>` are
  constants. `ccstools.h` is not part of this model, so these spellings are
  taken from how `editpolicy.c` prints and parses them.

Two behaviours of the resolver are easy to misread in the code:
- **The unreachability walk goes on after an initializer match.** An
  initializer match records the rule and `continue`s toward the root
  (editpolicy.c:1945-1951). The walk stops only at a parent no longer than
  the root name (`Resolver.WalkMarked`, `Resolver.DeepInitializerUnreachable`).
- **A second-level initializer does not apply.** Take the domain
  `<kernel> /a /b` and the rule `initialize_domain /b from <kernel> /a`. The
  domain is unreachable, because its parent `<kernel> /a` is longer than the
  root name (editpolicy.c:1947). It is not a target either, because its name
  holds two spaces (1966-1968). `Resolver.SecondLevelInitializerExample`
  proves both. At root level the rule does apply
  (`Resolver.RootLevelInitializerExample`).

## Model

| member | source | states |
|---|---|---|
| DomainStore.FindDomain | ccstools/ccstools.src/editpolicy.c:276-290 | returns the first index whose record has the key (name, is_dis, is_dd); returns EOF exactly when no record has it |
| DomainStore.FindByName | ccstools/ccstools.src/editpolicy.c:438-447 | find_domain_by_ptr: the first index with that name whatever the flags; EOF exactly when the name is absent |
| DomainStore.AddEntryOutcome | ccstools/ccstools.src/editpolicy.c:192-228 | succeeds exactly for an in-range index and a non-empty line, otherwise -EINVAL with no change. On success: a present line changes nothing; an absent one is appended, so the count grows by exactly one; the old list stays a prefix; other records and fields are untouched; duplicate-freedom is kept |
| DomainStore.DomainPolicy.AddStringEntry | ccstools/ccstools.src/editpolicy.c:192-228 | the scan-then-append loop leaves the list and return code AddEntryOutcome gives |
| DomainStore.RemoveFirst | ccstools/ccstools.src/editpolicy.c:244-259 | removing a line drops the count by one and takes one copy out of the multiset of lines |
| DomainStore.RemoveFirstNoDuplicates | ccstools/ccstools.src/editpolicy.c:244-259 | in a duplicate-free list the removed line is gone entirely; every other line stays; the list stays duplicate-free |
| DomainStore.DelEntryOutcome | ccstools/ccstools.src/editpolicy.c:230-261 | -EINVAL exactly for a bad index or empty line; -ENOENT exactly for an absent line; both leave the list unchanged. Otherwise 0, with the first occurrence removed and the other lines kept in order |
| DomainStore.DomainPolicy.DelStringEntry | ccstools/ccstools.src/editpolicy.c:230-261 | the scan and the shifting loop give DelEntryOutcome's list and code |
| DomainStore.DomainPolicy.ClearDomainPolicy | ccstools/ccstools.src/editpolicy.c:263-274 | the list becomes empty |
| DomainStore.AssignOutcome | ccstools/ccstools.src/editpolicy.c:292-320 | an existing key returns its index with no change. A new valid name appends a zeroed record with that key at the old length. An invalid new name returns EOF with no change |
| DomainStore.AssignTwiceSameIndex | ccstools/ccstools.src/editpolicy.c:292-320 | a second call with the same key returns the same index and changes nothing |
| DomainStore.AssignKeepsKeysUnique | ccstools/ccstools.src/editpolicy.c:292-320 | find_or_assign_new_domain only appends and never creates a second record with an existing key |
| DomainStore.DomainPolicy.FindOrAssignNewDomain | ccstools/ccstools.src/editpolicy.c:292-320 | the method's new list and index are AssignOutcome's |
| DomainStore.DomainPolicy.DeleteDomain | ccstools/ccstools.src/editpolicy.c:322-331 | an in-range index removes that record, shortens the list by one and keeps the others in order; an out-of-range index changes nothing |
| DomainStore.ShiftDown | ccstools/ccstools.src/editpolicy.c:327-329 | the slide-down loop of delete_domain (and of del_string_entry, 254-255) leaves the list without the element at the given position and the rest in their order |
| DomainStore.SortedPolicyProperties | ccstools/ccstools.src/editpolicy.c:333-354 | after sort_domain_policy the records are a permutation sorted by name, and each ACL list is a sorted permutation of its old lines |
| DomainStore.DomainPolicy.SortDomainPolicy | ccstools/ccstools.src/editpolicy.c:346-354 | the new list is SortedPolicy of the old one |
| DomainStore.DomainPolicy.WriteDomainPolicy | ccstools/ccstools.src/editpolicy.c:356-375 | prints, for each record in order, its name, a blank line, its ACL lines and a blank line |
| Sorting.SortByKey | ccstools/ccstools.src/editpolicy.c:2053-2054 | the sort that stands for qsort returns a permutation of its input |
| Sorting.SortByKeySorted | ccstools/ccstools.src/editpolicy.c:2053-2054 | the sort's result is sorted by the key |
| DomainScript.ProfileLineParses | ccstools/ccstools.src/editpolicy.c:3609-3611 | a printed `use_profile=N` line is read back as N |
| DomainScript.ApplyDomainScriptAppend | ccstools/ccstools.src/editpolicy.c:3581-3616 | interpreting a + b is interpreting a, then b from the state a left |
| DomainScript.HandleDomainPolicy | ccstools/ccstools.src/editpolicy.c:3574-3630 | write direction: the list is ApplyDomainScript over the input, starting with no current domain (delete / select / create a domain, `use_profile=`, `delete <line>`, add); read direction: the list is unchanged and the output is ProfileText |
| DomainScript.PrintDomainPolicy | ccstools/ccstools.src/editpolicy.c:3618-3629 | the read direction prints exactly ProfileText of the list: per record its name, `use_profile=<n>`, a blank line, its ACL lines in order and a blank line |
| DomainScript.HandleDomainLine | ccstools/ccstools.src/editpolicy.c:3582-3615 | one write-direction line changes the policy and the current index exactly as ApplyDomainLine, and leaves the selection untouched |
| DomainScript.ReadDomainPolicy | ccstools/ccstools.src/editpolicy.c:405-421 | interprets the file, then sorts the policy |
| DomainScript.ApplyAclLines | ccstools/ccstools.src/editpolicy.c:3607-3615 | plain ACL lines under a current domain are appended, in order, to that record only |
| DomainScript.ApplyHeaderLine | ccstools/ccstools.src/editpolicy.c:3589-3606 | a new domain name appends its record and makes it current |
| DomainScript.ApplyProfileLine | ccstools/ccstools.src/editpolicy.c:3609-3611 | `use_profile=N` sets the current record's profile and nothing else |
| DomainScript.ApplyBlankLine | ccstools/ccstools.src/editpolicy.c:3607-3608 | a blank line changes nothing |
| DomainScript.ApplyBlockHead | ccstools/ccstools.src/editpolicy.c:3589-3611 | the three head lines of a printed block open the record and set its profile |
| DomainScript.ApplyProfileBlock | ccstools/ccstools.src/editpolicy.c:3619-3629 | one printed block, read into a policy lacking that name, appends exactly that record |
| DomainScript.ProfileTextRoundTrip | ccstools/ccstools.src/editpolicy.c:3574-3630 | what the read direction prints, interpreted on an empty policy, gives back the same records in the same order |
| MiscPolicyStore.MiscPolicy.HandleMiscPolicy | ccstools/ccstools.src/editpolicy.c:3637-3678 | write direction: the list is ApplyMiscScript over the input; read direction: the output is the list, unchanged |
| MiscPolicyStore.MiscPolicy.ProcessLine | ccstools/ccstools.src/editpolicy.c:3645-3672 | one line's scan, shift or append gives ApplyMiscLine |
| MiscPolicyStore.ApplyMiscScriptNoDuplicates | ccstools/ccstools.src/editpolicy.c:3642-3673 | every script keeps a duplicate-free list duplicate-free |
| MiscPolicyStore.MiscLineEffect | ccstools/ccstools.src/editpolicy.c:3645-3672 | after a non-empty add line the line is present and nothing else changes membership; after `delete x`, x is absent and nothing else changes membership |
| MiscPolicyStore.MiscAddIdempotent | ccstools/ccstools.src/editpolicy.c:3661-3672 | adding a line twice is the same as adding it once |
| MiscPolicyStore.MiscDeleteUndoesAdd | ccstools/ccstools.src/editpolicy.c:3647-3672 | deleting a line just added to a list that lacked it restores the list |
| MiscPolicyStore.MiscRoundTrip | ccstools/ccstools.src/editpolicy.c:3637-3678 | a printed duplicate-free list, interpreted on an empty list, is the same list |
| PolicyDiff.FirstSomeFrom | ccstools/ccstools.src/editpolicy.c:657-666 | the first slot at or after the start that holds the line, or none when no slot does |
| PolicyDiff.NoBreakIsFirstMatch | ccstools/ccstools.src/editpolicy.c:515-522 | the domain diff's cancellation loop, which has no `break`, cancels exactly the pairs that the first-match loop of move_proc_to_file cancels |
| PolicyDiff.CancelLinesMultisets | ccstools/ccstools.src/editpolicy.c:655-667 | every proc line cancels at most one equal base line, and does so whenever one is left: the leftovers are the two multiset differences |
| PolicyDiff.CancelLinesMembership | ccstools/ccstools.src/editpolicy.c:655-667 | for duplicate-free lists, the leftovers are exactly the lines of one side that the other side lacks |
| PolicyDiff.CancelLinesEmpty | ccstools/ccstools.src/editpolicy.c:655-667 | nothing is left on either side exactly when the two lists are permutations of each other |
| PolicyDiff.ChangedBlockEmpty | ccstools/ccstools.src/editpolicy.c:504-551 | a domain in both policies prints nothing, not even its header, exactly when its ACL lines are a permutation of the base's and its profile is the same |
| PolicyDiff.ChangedBlockLeftovers | ccstools/ccstools.src/editpolicy.c:515-540 | for a common domain, `delete` lines name exactly the base-only lines and plain lines exactly the proc-only lines |
| PolicyDiff.RemovedDomainsNone | ccstools/ccstools.src/editpolicy.c:479-486 | base domains that all occur in proc print no `delete <domain>` line |
| PolicyDiff.AddedDomainsNone | ccstools/ccstools.src/editpolicy.c:488-502 | proc domains that all occur in base print no added record |
| PolicyDiff.ChangedDomainsSelf | ccstools/ccstools.src/editpolicy.c:504-551 | a policy with unique names, compared with itself in its common-domain loop, prints nothing |
| PolicyDiff.DomainDiffSelf | ccstools/ccstools.src/editpolicy.c:479-551 | diffing a policy with unique domain names against itself prints nothing |
| PolicyDiff.DomainDiffApplies | ccstools/ccstools.src/editpolicy.c:479-551 | the diff law: the diff of proc against base, read by handle_domain_policy (3581-3616) onto base, leaves a store whose names are exactly proc's names, each with proc's profile and a permutation of proc's ACL lines. It holds for stores of uniquely named domains that have valid domain-definition names and no flags set, and whose ACL lines are non-empty, are not domain definitions, and begin with none of `delete `, `select ` and `use_profile=` (PlainStore) |
| PolicyDiff.RemovedDomainsApply | ccstools/ccstools.src/editpolicy.c:479-486 | the `delete <domain>` blocks of the first loop remove exactly the base domains proc lacks and keep the others in their order |
| PolicyDiff.AddedDomainsApply | ccstools/ccstools.src/editpolicy.c:488-501 | the blocks of the second loop append, in proc's order, exactly the proc domains base lacks, each with its profile and ACL lines |
| PolicyDiff.ChangedDomainsApply | ccstools/ccstools.src/editpolicy.c:503-549 | after the blocks of the third loop, every proc domain has proc's profile and ACL lines, and the store stays plain with proc's names only |
| PolicyDiff.ApplyChangedBlock | ccstools/ccstools.src/editpolicy.c:524-548 | one common domain's block, empty or not, rewrites only that domain's record: its lines become ChangedAcl and its profile proc's |
| PolicyDiff.ChangedAclMembers | ccstools/ccstools.src/editpolicy.c:512-540 | the base lines left after the `delete` lines, followed by the plain lines, are duplicate-free and exactly the proc domain's lines |
| PolicyDiff.ApplyDeleteLines | ccstools/ccstools.src/editpolicy.c:3612-3613 | a run of `delete <line>` lines deletes those lines, in order, from the current record and touches nothing else |
| PolicyDiff.DeleteAllMembers | ccstools/ccstools.src/editpolicy.c:244-259 | from a duplicate-free list, deleting a run of lines leaves a duplicate-free list of exactly the lines not in the run |
| PolicyDiff.NonBlank | ccstools/ccstools.src/editpolicy.c:638-651 | the lines kept from a file are exactly its non-blank lines |
| PolicyDiff.LineDiffMultisets | ccstools/ccstools.src/editpolicy.c:655-675 | move_proc_to_file writes `delete` for each base line left over and a plain line for each proc line left over; the leftovers are the multiset differences base − proc and proc − base |
| PolicyDiff.MoveProcToFile | ccstools/ccstools.src/editpolicy.c:655-675 | the array loops write LineDiff of the two files |
| PolicyDiff.CancelAll | ccstools/ccstools.src/editpolicy.c:655-667 | the nested loops leave both arrays as the first-match cancellation does |
| PolicyDiff.CancelRow | ccstools/ccstools.src/editpolicy.c:657-666 | one row nulls the proc slot and the first base slot equal to it, or nothing when no base slot is |
| PolicyDiff.EmitDeletes | ccstools/ccstools.src/editpolicy.c:668-671 | prints `delete x` for each base slot left, in order |
| PolicyDiff.EmitRemaining | ccstools/ccstools.src/editpolicy.c:672-675 | prints each proc slot left, in order |
| PolicyDiff.ReadNonBlank | ccstools/ccstools.src/editpolicy.c:638-651 | the read loop keeps exactly NonBlank of the lines |
| Exceptions.LastUnvetoedSpec | ccstools/ccstools.src/editpolicy.c:1289-1349 | the lookup loop both functions share: any matching negated rule gives NULL; otherwise the result is the last matching rule, or NULL when none matches |
| Exceptions.KeeperLookup | ccstools/ccstools.src/editpolicy.c:1289-1316 | is_domain_keeper is NULL when a matching rule is negated, whatever its position. Otherwise it is the last matching rule, which is positive, or NULL when none matches |
| Exceptions.InitializerLookup | ccstools/ccstools.src/editpolicy.c:1319-1349 | the same veto / last-match law for is_domain_initializer |
| Exceptions.LastNameRulesSeeLastComponent | ccstools/ccstools.src/editpolicy.c:1297-1303 | last-name keeper rules compare only the text after the final space: two domains ending alike get the same answer |
| Exceptions.DomainlessInitializerAppliesEverywhere | ccstools/ccstools.src/editpolicy.c:1327-1335 | an initializer rule with no domain matches under every domain |
| Exceptions.InitializerAdd | ccstools/ccstools.src/editpolicy.c:1530-1563 | the rule is appended exactly when the program is a valid path; otherwise -EINVAL with the list unchanged |
| Exceptions.KeeperAdd | ccstools/ccstools.src/editpolicy.c:1576-1605 | the rule is appended — flagged last-name when the domain is a single path — exactly when the domain is a single path or a valid domain name; otherwise -EINVAL with no change |
| Exceptions.FromSplitExact | ccstools/ccstools.src/editpolicy.c:1565-1616 | "p from d" with a space-free program is split into exactly p and d by both policy wrappers |
| Exceptions.AddedInitializerDecides | ccstools/ccstools.src/editpolicy.c:1530-1574 | an accepted positive "p from d" initializer rule becomes the answer for (d, p), unless a negated rule applies there |
| Exceptions.AddedKeeperDecides | ccstools/ccstools.src/editpolicy.c:1576-1605 | an accepted positive keeper rule for a full domain name becomes the answer for that domain and every program, unless a negated rule applies there |
| Exceptions.FindGroup | ccstools/ccstools.src/editpolicy.c:1680-1688 | find_path_group, and find_address_group at 1797-1805, which has the same loop: the first group with that name, or none exactly when no group has it |
| Exceptions.PathGroupAddSpec | ccstools/ccstools.src/editpolicy.c:1618-1669 | adding a member succeeds exactly for valid group and member names, otherwise -EINVAL with no change. On success the group exists and holds the member, no other group changes, and group names stay unique |
| Exceptions.PathGroupAddIdempotent | ccstools/ccstools.src/editpolicy.c:1618-1669 | adding the same member twice is the same as adding it once |
| Exceptions.ParseIp | ccstools/ccstools.src/editpolicy.c:1690-1729 | a parsed entry has 16-byte min and max |
| Exceptions.ParseIpv4Single | ccstools/ccstools.src/editpolicy.c:1690-1729 | a dotted quad parses to an IPv4 entry whose min and max are both its four bytes, followed by twelve zero bytes |
| Exceptions.ParseIpv4Range | ccstools/ccstools.src/editpolicy.c:1696-1712 | an `a-b` IPv4 range parses to its two ends |
| Exceptions.ParseIpv6Single | ccstools/ccstools.src/editpolicy.c:1713-1729 | a single IPv6 address parses to an IPv6 entry with min = max, each 16-bit group stored big-endian |
| Exceptions.V6BytesGroups | ccstools/ccstools.src/editpolicy.c:1713-1728 | each group is split into its high byte then its low byte |
| Exceptions.Ipv4NotMistaken | ccstools/ccstools.src/editpolicy.c:1696-1712 | text without a '.' never reads as an IPv4 address |
| Exceptions.AddressGroupAddSpec | ccstools/ccstools.src/editpolicy.c:1731-1786 | adding an address succeeds exactly when it parses and the group name is valid, otherwise -EINVAL with no change. On success the parsed entry is in the named group, no other group changes, and names stay unique |
| Exceptions.PathGroupPolicyAddExtends | ccstools/ccstools.src/editpolicy.c:1671-1678 | add_path_group_policy only grows the path groups and keeps their names unique |
| Exceptions.AddressGroupPolicyAddExtends | ccstools/ccstools.src/editpolicy.c:1788-1795 | add_address_group_policy only grows the address groups and keeps their names unique |
| Exceptions.ExceptionLineExtends | ccstools/ccstools.src/editpolicy.c:1858-1872 | one exception-policy line only appends rules or grows groups, and keeps group names unique |
| Exceptions.ExceptionScriptExtends | ccstools/ccstools.src/editpolicy.c:1853-1874 | the whole exception file only grows the registries, and keeps group names unique |
| Exceptions.LoadedInitializerDecides | ccstools/ccstools.src/editpolicy.c:1858-1860 | an accepted `initialize_domain p from d` line becomes the answer for (d, p), unless a negated rule applies |
| Exceptions.ExceptionPolicy.constructor | ccstools/ccstools.src/editpolicy.c:1842-1850 | all four registries start empty |
| Exceptions.ExceptionPolicy.Clear | ccstools/ccstools.src/editpolicy.c:1842-1850 | all four registries are reset |
| Exceptions.ExceptionPolicy.AddDomainInitializerEntry | ccstools/ccstools.src/editpolicy.c:1530-1563 | the initializer list and code are InitializerAdd's; the other registries are untouched |
| Exceptions.ExceptionPolicy.AddDomainInitializerPolicy | ccstools/ccstools.src/editpolicy.c:1565-1574 | splits at " from ", then adds the entry |
| Exceptions.ExceptionPolicy.AddDomainKeeperEntry | ccstools/ccstools.src/editpolicy.c:1576-1605 | the keeper list and code are KeeperAdd's; the other registries are untouched |
| Exceptions.ExceptionPolicy.AddDomainKeeperPolicy | ccstools/ccstools.src/editpolicy.c:1607-1616 | splits at " from ", then adds the entry |
| Exceptions.ExceptionPolicy.AddPathGroupEntry | ccstools/ccstools.src/editpolicy.c:1618-1669 | the group scan, member scan and append give PathGroupAdd |
| Exceptions.ExceptionPolicy.AddPathGroupPolicy | ccstools/ccstools.src/editpolicy.c:1671-1678 | splits at the first space, then adds the member |
| Exceptions.ExceptionPolicy.AddAddressGroupEntry | ccstools/ccstools.src/editpolicy.c:1731-1786 | parses, then stores as AddressGroupAdd does |
| Exceptions.ExceptionPolicy.InsertAddress | ccstools/ccstools.src/editpolicy.c:1743-1785 | the group scan, entry scan and append give AddressInsert |
| Exceptions.ExceptionPolicy.AddAddressGroupPolicy | ccstools/ccstools.src/editpolicy.c:1788-1795 | splits at the first space, then adds the address |
| Exceptions.ExceptionPolicy.LoadExceptionPolicy | ccstools/ccstools.src/editpolicy.c:1853-1874 | the registries after the loop are ApplyExceptionScript of the file |
| Resolver.WalkDomain | ccstools/ccstools.src/editpolicy.c:1932-1958 | the cut-at-last-space loop leaves the (d_i, d_k) pair Walk gives |
| Resolver.MarkUnreachable | ccstools/ccstools.src/editpolicy.c:1930-1962 | each record is walked and gets is_du when either pointer ends up set |
| Resolver.WalkMarked | ccstools/ccstools.src/editpolicy.c:1944-1961 | the walk only replaces pointers: a domain is marked exactly when it starts marked or a fresh walk marks it |
| Resolver.WalkFirstStep | ccstools/ccstools.src/editpolicy.c:1938-1943 | the first step of the walk of `parent + " " + program` splits it into exactly that parent and program |
| Resolver.RootLevelInitializerReachable | ccstools/ccstools.src/editpolicy.c:1945-1948 | a program started through an initializer directly under a root-length domain stays reachable |
| Resolver.DeepInitializerUnreachable | ccstools/ccstools.src/editpolicy.c:1945-1951 | an initializer that applies under any longer parent makes the domain unreachable |
| Resolver.KeeperUnreachable | ccstools/ccstools.src/editpolicy.c:1953-1957 | a keeper for the parent, with no initializer there, makes the domain unreachable |
| Resolver.UnreachableInherited | ccstools/ccstools.src/editpolicy.c:1934-1958 | children of an unreachable domain are unreachable, except across a root-level initializer step |
| Resolver.TopLevelNotWalked | ccstools/ccstools.src/editpolicy.c:1938-1940 | a name without a space is never walked |
| Resolver.MarkTargets | ccstools/ccstools.src/editpolicy.c:1964-1978 | each record gets is_dit as TargetPass says: its name has exactly one space and a positive initializer names the program after it |
| Resolver.TargetOf | ccstools/ccstools.src/editpolicy.c:1965-1977 | one record of the pass: is_dit is set exactly when TargetStep sets it, the rule loop having checked every positive initializer |
| Resolver.InitializerLookupMakesTarget | ccstools/ccstools.src/editpolicy.c:1964-1978 | if is_domain_initializer applies to a program under a one-component domain, that child is marked as a target |
| Resolver.TargetNeedsOneSpace | ccstools/ccstools.src/editpolicy.c:1966-1968 | every target name has exactly one space |
| Resolver.MarkKeepers | ccstools/ccstools.src/editpolicy.c:1980-2001 | each record gets is_dk as KeeperPass says: a positive full-name rule names it, or a positive last-name rule names its final component |
| Resolver.KeeperLookupMakesKeeper | ccstools/ccstools.src/editpolicy.c:1980-2001 | every domain with a space in its name that is_domain_keeper answers for is marked as a keeper |
| Resolver.LastNameKeeperNeedsSpace | ccstools/ccstools.src/editpolicy.c:1995-1998 | a last-name rule never flags a domain whose name has no space |
| Resolver.SecondLevelInitializerExample | ccstools/ccstools.src/editpolicy.c:1930-1978 | with `initialize_domain /b from <kernel> /a`, the domain `<kernel> /a /b` is unreachable and not a target |
| Resolver.RootLevelInitializerExample | ccstools/ccstools.src/editpolicy.c:1930-1978 | with a domainless `initialize_domain /b`, `<kernel> /b` is reachable and a target |
| Synthesis.AssignSource | ccstools/ccstools.src/editpolicy.c:1807-1820 | only appends. It aborts exactly when an initializer applies, the source record is missing and its normalised name is invalid |
| Synthesis.AssignSources | ccstools/ccstools.src/editpolicy.c:2025-2029 | each program in turn; only appends |
| Synthesis.SourcesForLines | ccstools/ccstools.src/editpolicy.c:2014-2030 | each ACL line in turn, with `@group` lines expanded to the group's members and unknown groups skipped; only appends |
| Synthesis.SourcesFrom | ccstools/ccstools.src/editpolicy.c:2003-2031 | the source pass over the records loaded before it; only appends |
| Synthesis.AssignSourceStep | ccstools/ccstools.src/editpolicy.c:1807-1820 | the method aborts exactly where AssignSource does, and otherwise leaves its list |
| Synthesis.AssignSourceSteps | ccstools/ccstools.src/editpolicy.c:2025-2029 | the method follows AssignSources |
| Synthesis.SourcesForDomain | ccstools/ccstools.src/editpolicy.c:2014-2030 | the method follows SourcesForLines |
| Synthesis.SourcesForLine | ccstools/ccstools.src/editpolicy.c:2015-2029 | one line, or one group's members, as AssignSources does |
| Synthesis.SynthesizeSources | ccstools/ccstools.src/editpolicy.c:2003-2031 | the method follows SourcesFrom, skipping root-length domains |
| Synthesis.AssignSourceSourced | ccstools/ccstools.src/editpolicy.c:1807-1820 | afterwards, when the initializer applies, an is_dis record for "domain program" exists |
| Synthesis.AssignSourcesSourced | ccstools/ccstools.src/editpolicy.c:2025-2029 | afterwards every listed program has its source |
| Synthesis.SourcesForLinesSourced | ccstools/ccstools.src/editpolicy.c:2014-2030 | afterwards every program each line stands for has its source |
| Synthesis.SourcesFromSourced | ccstools/ccstools.src/editpolicy.c:2003-2031 | after the pass, every record that existed before it has a source for every program its ACL names |
| Synthesis.SourcesFromKeepKeysUnique | ccstools/ccstools.src/editpolicy.c:2003-2031 | the source pass never creates a second record with an existing key |
| Synthesis.EnsureAncestors | ccstools/ccstools.src/editpolicy.c:2037-2048 | the parent loop for one name only appends |
| Synthesis.ParentsFrom | ccstools/ccstools.src/editpolicy.c:2033-2050 | the parent pass only appends |
| Synthesis.EnsureAncestorsOf | ccstools/ccstools.src/editpolicy.c:2035-2049 | the method follows EnsureAncestors, aborting exactly where it does |
| Synthesis.SynthesizeParents | ccstools/ccstools.src/editpolicy.c:2033-2050 | the method follows ParentsFrom |
| Synthesis.EnsureAncestorsPresent | ccstools/ccstools.src/editpolicy.c:2037-2048 | afterwards every prefix of the name that ends before a space has a record (existing, or is_dd) |
| Synthesis.ParentsFromPresent | ccstools/ccstools.src/editpolicy.c:2033-2050 | after the pass, every record that existed before it has all its ancestors |
| Synthesis.ParentsFromKeepKeysUnique | ccstools/ccstools.src/editpolicy.c:2033-2050 | the parent pass never creates a second record with an existing key |
| Synthesis.SortByName | ccstools/ccstools.src/editpolicy.c:2052-2054 | the list becomes a permutation sorted by name |
| Synthesis.AssignNumbers | ccstools/ccstools.src/editpolicy.c:2056-2070 | the loop gives Numbering and returns the count of is_dd / is_dis records |
| Synthesis.NumberedCountGrows | ccstools/ccstools.src/editpolicy.c:2061-2069 | every numbered record raises the count of numbered records |
| Synthesis.NumberingOnto | ccstools/ccstools.src/editpolicy.c:2061-2069 | every value below the count is reached at some numbered record |
| Synthesis.NumberingDense | ccstools/ccstools.src/editpolicy.c:2056-2070 | the numbering changes only `number`. Synthesized records get -1; the others get 0, 1, 2, ... in list order, each value exactly once |
| Synthesis.ClearSelection | ccstools/ccstools.src/editpolicy.c:2072-2075 | the selection bitmap has the list's length and is all clear |
| PolicyLoader.ExecutePrefix | ccstools/ccstools.src/editpolicy.c:1908-1912 | a prefix is found exactly when the line starts with `allow_execute ` or one of `1 `, `3 `, `5 `, `7 ` |
| PolicyLoader.FirstField | ccstools/ccstools.src/editpolicy.c:1913-1916 | the text before the first space |
| PolicyLoader.ListLine | ccstools/ccstools.src/editpolicy.c:1893-1922 | one line of the domain-list loop, as ApplyListLine |
| PolicyLoader.LoadDomainList | ccstools/ccstools.src/editpolicy.c:1890-1923 | the list after the loop is ApplyListScript of the file |
| PolicyLoader.ListLineKeepsInvariant | ccstools/ccstools.src/editpolicy.c:1892-1923 | one line keeps keys unique and each ACL list duplicate-free |
| PolicyLoader.ListScriptKeepsInvariant | ccstools/ccstools.src/editpolicy.c:1890-1923 | the whole domain list keeps keys unique and each ACL list duplicate-free |
| PolicyLoader.ExecuteLineStoresProgram | ccstools/ccstools.src/editpolicy.c:1908-1918 | `allow_execute <program> <rest>` stores just the program, in the current record only |
| PolicyLoader.HandlerLineStoresPath | ccstools/ccstools.src/editpolicy.c:1903-1904 | `execute_handler <path>` stores the path, in the current record only |
| PolicyLoader.Marked3 | ccstools/ccstools.src/editpolicy.c:1928-2001 | the three marking passes keep the length |
| PolicyLoader.NumberingKeepsCount | ccstools/ccstools.src/editpolicy.c:2056-2070 | numbering does not change which records are numbered |
| PolicyLoader.ReadDomainAndExceptionPolicy | ccstools/ccstools.src/editpolicy.c:1834-2076 | the registries are the loaded exception file. It aborts exactly when Resolve does. Otherwise the list is Resolve's result, the unnumbered count is right and the selection is clear |
| PolicyLoader.FinalPresent | ccstools/ccstools.src/editpolicy.c:2052-2070 | sorting and numbering lose no key |
| PolicyLoader.FinalAncestors | ccstools/ccstools.src/editpolicy.c:2052-2070 | sorting and numbering keep every ancestor record |
| PolicyLoader.FinalSourced | ccstools/ccstools.src/editpolicy.c:2052-2070 | sorting and numbering keep every initializer source |
| PolicyLoader.ResolvedProperties | ccstools/ccstools.src/editpolicy.c:1928-2070 | after a resolve that does not abort, the list is sorted by name and no loaded record is lost. Every loaded domain has a record for each ancestor, and the numbering is dense |
| PolicyLoader.ResolvedSources | ccstools/ccstools.src/editpolicy.c:2003-2070 | after a resolve that does not abort, every program an initializer applies to, under every loaded non-root-length domain, has its is_dis source record |
| Directives.StripWord | ccstools/ccstools.src/editpolicy.c:4041-4050 | the line is the keyword alone, or the keyword, a space and the returned rest |
| Directives.DirectiveFrom | ccstools/ccstools.src/editpolicy.c:4034-4055 | the first table entry from i on that is a whole-word prefix, with the line stripped of it; or DIRECTIVE_NONE with the line unchanged when none is |
| Directives.FindDirective | ccstools/ccstools.src/editpolicy.c:4027-4056 | the loop returns Recognise over the original keywords (forward) or the aliases |
| Directives.WordPrefixUnique | ccstools/ccstools.src/editpolicy.c:4038-4043 | two space-free keywords that are both whole-word prefixes of one line are equal |
| Directives.RecogniseWholeWord | ccstools/ccstools.src/editpolicy.c:4027-4056 | with space-free, distinct keywords, the keyword the line begins with as a whole word is the one returned, whatever the table order |
| Directives.ReadWriteIsNotRead | ccstools/ccstools.src/editpolicy.c:4038-4043 | `allow_read/write ...` is not an `allow_read` line but is an `allow_read/write` one |
| Optimizer.ConditionStartSpec | ccstools/ccstools.src/editpolicy.c:2527-2542 | the condition starts at the last " if ". When there is none, it starts at the first " ; set ". When neither occurs there is no condition |
| Optimizer.NetworkPrefix | ccstools/ccstools.src/editpolicy.c:2550-2565 | subtype k strips the k-th of the eight protocol/operation prefixes, the first that matches; subtype 0 means none matched and nothing is stripped |
| Optimizer.FirstWord | ccstools/ccstools.src/editpolicy.c:2567-2572 | the first field is the text before the first space, the second is the rest, or "" when there is no space |
| Optimizer.CutCondition | ccstools/ccstools.src/editpolicy.c:2527-2544 | the operand is the text before the condition, a space and the condition; the condition is "" when there is none |
| Optimizer.NetworkBody | ccstools/ccstools.src/editpolicy.c:2545-2566 | the network prefix is stripped only for allow_network |
| Optimizer.SplitAcl | ccstools/ccstools.src/editpolicy.c:2516-2577 | the method, with its loop to the last " if ", returns SplitAclSpec |
| Optimizer.SplitCondition | ccstools/ccstools.src/editpolicy.c:2527-2542 | the loop over later " if "s gives CutCondition |
| Optimizer.StripNetworkPrefix | ccstools/ccstools.src/editpolicy.c:2550-2565 | the str_starts chain gives NetworkPrefix |
| Optimizer.LastIfFound | ccstools/ccstools.src/editpolicy.c:2529-2534 | when no " if " follows, three places on, the loop's current one is the last |
| Optimizer.SplitAclRejoins | ccstools/ccstools.src/editpolicy.c:2516-2577 | the fields rejoin to the operand: network prefix + first + " " + second + condition tail, or the same without the space when second is ""; subtype ≠ 0 only for allow_network and at most 8 |
| Optimizer.ConditionPrecedence | ccstools/ccstools.src/editpolicy.c:2527-2544 | the three precedence cases: after the last " if "; else after the first " ; set "; else ""; the condition begins with "if " or "; set " |
| Optimizer.NetworkSubtype | ccstools/ccstools.src/editpolicy.c:2545-2566 | subtype is 0 except for allow_network, where an operand starting with prefix k (and no earlier one) gets k + 1 |
| Optimizer.AnyMemberCovers | ccstools/ccstools.src/editpolicy.c:2625-2633 | true exactly when some member equals the candidate or, patterns allowed, matches it |
| Optimizer.ComparePathGroup | ccstools/ccstools.src/editpolicy.c:2602-2634 | an `@group` probe covers a candidate exactly when the candidate equals `@group`, or is not a group, the group exists and some member equals or (patterns allowed) matches it |
| Optimizer.ExecutePathsAreExact | ccstools/ccstools.src/editpolicy.c:2607-2619 | for the execute directives a literal path covers only itself |
| Optimizer.Memcmp | ccstools/ccstools.src/editpolicy.c:2648-2662 | memcmp's sign; zero exactly for equal byte strings |
| Optimizer.MemcmpOrder | ccstools/ccstools.src/editpolicy.c:2648-2662 | memcmp ≤ 0 exactly when the first is lexicographically ≤ the second over all bytes; swapping the arguments negates it |
| Optimizer.AnyMemberContains | ccstools/ccstools.src/editpolicy.c:2658-2665 | true exactly when some member's range contains the candidate's |
| Optimizer.CompareAddressLiteral | ccstools/ccstools.src/editpolicy.c:2642-2653 | a literal probe covers the candidate exactly when both parse, the families agree, probe.min ≤ cand.min and cand.max ≤ probe.max lexicographically over 16 bytes; an unparsable candidate gives false |
| Optimizer.CompareAddressGroup | ccstools/ccstools.src/editpolicy.c:2642-2666 | an `@group` probe covers the candidate exactly when it parses, the group exists and some member's range contains it; an unknown group gives false |
| Optimizer.PortRange | ccstools/ccstools.src/editpolicy.c:2846-2861 | `%u-%u`: no leading number is rejected; otherwise the minimum is the first number, and the maximum equals it unless a `-` follows |
| Optimizer.PortRangeRoundTrip | ccstools/ccstools.src/editpolicy.c:2846-2861 | a printed port reads back as the range of that one port, and a printed `min-max` as (min, max) |
| Optimizer.Optimized | ccstools/ccstools.src/editpolicy.c:2668-2871 | try_optimize keeps the list's length |
| Optimizer.MarkEntry | ccstools/ccstools.src/editpolicy.c:2694-2870 | one iteration of the candidate loop gives Mark |
| Optimizer.TryOptimize | ccstools/ccstools.src/editpolicy.c:2668-2875 | the array after the loop is Optimized of the array before |
| Optimizer.MarkAll | ccstools/ccstools.src/editpolicy.c:2690-2870 | the candidate loop leaves in each slot that entry put through Mark, as MarkedPrefix says; MarkedPrefixOptimized shows that this is Optimized |
| Optimizer.OptimizeOnlySelects | ccstools/ccstools.src/editpolicy.c:2668-2871 | only `selected` changes, only from clear to set; directives and operands never change; the probe and already-selected entries are untouched |
| Optimizer.OptimizeMarkedPasses | ccstools/ccstools.src/editpolicy.c:2681-2870 | an entry newly selected is not the probe, and the probe has a directive. It passes every test: a compatible directive (2699-2739), an operand that fits the buffer, an equal subtype, a byte-identical condition, and the per-directive first-word and rest-word comparisons |
| Optimizer.OptimizeIdempotent | ccstools/ccstools.src/editpolicy.c:2668-2871 | a second try_optimize on the same entry selects nothing more |
| Optimizer.ReadWriteCoversHalves | ccstools/ccstools.src/editpolicy.c:2699-2739 | an allow_read/write probe covers allow_read and allow_write entries, but allow_read covers neither allow_write nor allow_read/write |

## Left out

- The ncurses editor, key handling, the screens, `show_list`, cursor arithmetic, the `get`/`put` buffer lock and the `*_main` entry points: display, interaction and argument parsing, not policy logic.
- File, socket and process I/O (`open_read`, `open_write`, `send_fd`, `policy_daemon`, `copy_fd_to_fp`, mounts, symlink rotation, `cat_file`, `is_identical_file`, `move_file_to_proc`, `delete_proc_policy`): files are sequences of lines instead.
- `savename`, `strdup` and `realloc` failure: interning and allocation are taken to succeed, except that `out_of_memory` after `find_or_assign_new_domain` in the resolver is modelled as an abort (`Option` `None`).
- `update_domain_policy` (editpolicy.c:951-1010): not modelled; at line 979 it looks the domain up in the base policy instead of the new one, so it has no reconciliation law to state.
- The delete branches of `add_path_group_entry` and `add_address_group_entry` (1642-1644, 1757-1759): their shifting loop never advances, and the loader only ever passes `is_delete` false (1869, 1871); only the add path is modelled.
- Exceptions.ParseIp: `sscanf`'s leading whitespace, signs, overflow and 32-bit wrap of `%u`/`%X` are not modelled; numbers are plain decimal or hexadecimal digit runs, and the `(u8)` truncation at 1705-1706 and the per-byte casts of the IPv6 groups are kept.
- Optimizer.PortRange: the same `sscanf` simplification for the port range at 2846-2861.
- PolicyDiff.DomainDiffApplies: the law is stated only for plain stores (PlainStore). An ACL line that handle_domain_policy would read as a command, or a record with a flag set, is not reproduced by the diff, and the law says nothing about such stores. It also fixes each record's content only up to the order of its ACL lines, and does not state the order of the records.
- DomainScript.ParseUseProfile: `sscanf`'s `%u` after `use_profile=` (3609, and 1919 in the loader's PolicyLoader.ApplyListLine) is modelled as a plain run of decimal digits. The model does not capture that `%u` also skips leading whitespace, accepts a `+` or `-` sign, and wraps the value modulo 2^32 before the `(u8)` cast. The `(u8)` cast itself is modelled (`% 256`).
- Synthesis.SortByName: the tie order of `domainname_attribute_compare` (1827-1829) for equal names is not modelled, because the comparator is not antisymmetric; only "sorted by name and a permutation" is stated. The same holds for `sort_domain_policy`'s ordering of equal names.
- The rule pointers `d_i` and `d_k` are modelled as indices into the rule lists.
- `split_acl` and `find_directive` write NULs into, and move text inside, the caller's buffer; the model returns the pieces as strings instead.
- `init_keyword_map` reads the alias configuration from a file; the alias table is a parameter of `Directives.FindDirective`.
- Optimizer.TryOptimize: the screen's item count `list_item_count[current_screen]` is the array's length, the size of `shared_buffer` is the parameter `bufferSize`, and the final `show_list` call is left out.
- `generic_acl_compare` (2581-2600), the list screen's sort comparator, is display ordering and is not used by `try_optimize`.
- The exception file's `address_group` member strings are not freed at reset (1846-1850); memory release has no counterpart in the model.
