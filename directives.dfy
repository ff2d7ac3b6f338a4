/** The editor's directive table and find_directive, which recognises the
    directive a policy line starts with and strips it from the line. */
module Directives {
  import opened CStrings

  const DIRECTIVE_NONE: nat := 0
  const DIRECTIVE_1: nat := 1
  const DIRECTIVE_2: nat := 2
  const DIRECTIVE_3: nat := 3
  const DIRECTIVE_4: nat := 4
  const DIRECTIVE_5: nat := 5
  const DIRECTIVE_6: nat := 6
  const DIRECTIVE_7: nat := 7
  const DIRECTIVE_ALLOW_EXECUTE: nat := 8
  const DIRECTIVE_ALLOW_READ: nat := 9
  const DIRECTIVE_ALLOW_WRITE: nat := 10
  const DIRECTIVE_ALLOW_READ_WRITE: nat := 11
  const DIRECTIVE_ALLOW_LINK: nat := 22
  const DIRECTIVE_ALLOW_RENAME: nat := 23
  const DIRECTIVE_ALLOW_REWRITE: nat := 24
  const DIRECTIVE_ALLOW_ARGV0: nat := 25
  const DIRECTIVE_ALLOW_SIGNAL: nat := 26
  const DIRECTIVE_ALLOW_NETWORK: nat := 27
  const DIRECTIVE_ALLOW_ENV: nat := 28
  const MAX_DIRECTIVE_INDEX: nat := 51

  /** The `original` keyword of every directive, indexed by its number. */
  const DIRECTIVES: seq<string> := [
    "", "1", "2", "3", "4", "5", "6", "7",
    "allow_execute", "allow_read", "allow_write", "allow_read/write",
    "allow_create", "allow_unlink", "allow_mkdir", "allow_rmdir",
    "allow_mkfifo", "allow_mksock", "allow_mkblock", "allow_mkchar",
    "allow_truncate", "allow_symlink", "allow_link", "allow_rename",
    "allow_rewrite", "allow_argv0", "allow_signal", "allow_network",
    "allow_env", "address_group", "aggregator", "alias",
    "allow_capability", "allow_chroot", "allow_mount", "allow_pivot_root",
    "deny_autobind", "deny_rewrite", "deny_unmount", "file_pattern",
    "execute_handler", "denied_execute_handler", "ignore_global_allow_env",
    "ignore_global_allow_read", "initialize_domain", "keep_domain",
    "no_initialize_domain", "no_keep_domain", "path_group",
    "quota_exceeded", "use_profile"]

  /** `line` begins with the whole word `k`: `k` is followed by a space or
      by the end of the line. */
  predicate WordPrefix(line: string, k: string)
  {
    StartsWith(line, k) && (|line| == |k| || line[|k|] == ' ')
  }

  /** What is left of `line` once the word `k` and the space after it are
      removed. */
  function StripWord(line: string, k: string): (r: string)
    requires WordPrefix(line, k)
    ensures line == k || line == k + " " + r
  {
    if |line| == |k| then "" else line[|k| + 1..]
  }

  /** The keyword table find_directive searches: the originals when reading
      policy text, the configured aliases when reading what the user typed. */
  function KeywordTable(forward: bool, aliases: seq<string>): seq<string>
  {
    if forward then DIRECTIVES else aliases
  }

  /** The search find_directive makes from entry `i` on: the first entry
      that is a whole-word prefix of the line, with the line stripped of it,
      or DIRECTIVE_NONE and the line unchanged. */
  function DirectiveFrom(table: seq<string>, line: string, i: nat): (r: (nat, string))
    requires 1 <= i
    decreases |table| - i
    ensures r.0 == DIRECTIVE_NONE ==> r.1 == line && forall j :: i <= j < |table| ==> !WordPrefix(line, table[j])
    ensures r.0 != DIRECTIVE_NONE ==>
              && i <= r.0 < |table|
              && WordPrefix(line, table[r.0])
              && r.1 == StripWord(line, table[r.0])
              && forall j :: i <= j < r.0 ==> !WordPrefix(line, table[j])
  {
    if i >= |table| then (DIRECTIVE_NONE, line)
    else if WordPrefix(line, table[i]) then (i, StripWord(line, table[i]))
    else DirectiveFrom(table, line, i + 1)
  }

  /** find_directive on a keyword table. */
  function Recognise(table: seq<string>, line: string): (nat, string)
  {
    DirectiveFrom(table, line, 1)
  }

  /** find_directive(forward, line): the directive number it returns and the
      text it leaves in the line buffer. */
  method FindDirective(forward: bool, aliases: seq<string>, line: string) returns (index: nat, rest: string)
    requires |aliases| == MAX_DIRECTIVE_INDEX
    ensures (index, rest) == Recognise(KeywordTable(forward, aliases), line)
  {
    DirectiveCount();
    var table := KeywordTable(forward, aliases);
    var i := 1;
    while i < MAX_DIRECTIVE_INDEX
      invariant 1 <= i <= MAX_DIRECTIVE_INDEX == |table|
      invariant DirectiveFrom(table, line, i) == Recognise(table, line)
    {
      var len := |table[i]|;
      if len <= |line| && line[..len] == table[i] && (len == |line| || line[len] == ' ') {
        assert WordPrefix(line, table[i]);
        if len < |line| {
          rest := line[len + 1..];
        } else {
          rest := "";
        }
        return i, rest;
      }
      i := i + 1;
    }
    return DIRECTIVE_NONE, line;
  }

  lemma DirectiveCount()
    ensures |DIRECTIVES| == MAX_DIRECTIVE_INDEX
  {
  }

  /** Two space-free words that are both whole-word prefixes of one line are
      the same word. */
  lemma {:induction false} WordPrefixUnique(line: string, k1: string, k2: string)
    requires ' ' !in k1 && ' ' !in k2
    requires WordPrefix(line, k1) && WordPrefix(line, k2)
    ensures k1 == k2
  {
    assert k1 == line[..|k1|] && k2 == line[..|k2|];
  }

  /** A keyword is recognised only as a whole word: when the table's
      entries contain no space and are distinct, the order of the table does
      not matter, since the entry a line begins with as a whole word is the
      one find_directive returns. */
  lemma {:induction false} RecogniseWholeWord(table: seq<string>, line: string, i: nat)
    requires forall j :: 1 <= j < |table| ==> ' ' !in table[j]
    requires forall j, k :: 1 <= j < k < |table| ==> table[j] != table[k]
    requires 1 <= i < |table| && WordPrefix(line, table[i])
    ensures Recognise(table, line) == (i, StripWord(line, table[i]))
  {
    var r := Recognise(table, line);
    assert r.0 != DIRECTIVE_NONE;
    WordPrefixUnique(line, table[r.0], table[i]);
  }

  /** A line that continues the keyword without a space is not that
      directive: "allow_read/write x" is not an allow_read line. */
  lemma ReadWriteIsNotRead()
    ensures !WordPrefix("allow_read/write /etc", DIRECTIVES[DIRECTIVE_ALLOW_READ])
    ensures WordPrefix("allow_read/write /etc", DIRECTIVES[DIRECTIVE_ALLOW_READ_WRITE])
  {
    assert "allow_read/write /etc"[10] == '/';
    assert "allow_read/write /etc"[..16] == "allow_read/write";
  }
}
