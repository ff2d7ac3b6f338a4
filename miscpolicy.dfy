/** `struct misc_policy` and handle_misc_policy: a flat, duplicate-free list of
    policy lines (exception, profile, manager and system policies) edited by
    "add this line" / "delete this line" scripts and printed one per line. */
module MiscPolicyStore {
  import opened CStrings
  import opened DomainStore

  const DELETE_PREFIX: string := "delete "

  /** One line of handle_misc_policy's write loop. */
  function ApplyMiscLine(list: seq<string>, line: string): (r: seq<string>)
  {
    if line == "" then list
    else if StartsWith(line, DELETE_PREFIX) then
      var x := line[|DELETE_PREFIX|..];
      if x in list then RemoveFirst(list, x) else list
    else if line in list then list
    else list + [line]
  }

  /** The list after a whole script. */
  function ApplyMiscScript(list: seq<string>, lines: seq<string>): seq<string>
  {
    if lines == [] then list
    else ApplyMiscLine(ApplyMiscScript(list, lines[..|lines| - 1]), lines[|lines| - 1])
  }

  class MiscPolicy {
    /** list[0 .. list_len) */
    var list: seq<string>

    constructor ()
      ensures list == []
    {
      list := [];
    }

    /** handle_misc_policy: interpret `input` (write) or print the list (read). */
    method HandleMiscPolicy(input: seq<string>, isWrite: bool) returns (output: seq<string>)
      modifies this
      ensures isWrite ==> list == ApplyMiscScript(old(list), input) && output == []
      ensures !isWrite ==> list == old(list) && output == list
    {
      output := [];
      if !isWrite {
        var i := 0;
        while i < |list|
          invariant 0 <= i <= |list|
          invariant output == list[..i]
        {
          assert list[..i + 1] == list[..i] + [list[i]];
          output := output + [list[i]];
          i := i + 1;
        }
        assert list[..i] == list;
        return;
      }
      var k := 0;
      while k < |input|
        invariant 0 <= k <= |input|
        invariant list == ApplyMiscScript(old(list), input[..k])
      {
        assert input[..k + 1][..k] == input[..k];
        ProcessLine(input[k]);
        k := k + 1;
      }
      assert input[..k] == input;
    }

    /** The body of handle_misc_policy's write loop for one line. */
    method ProcessLine(line0: string)
      modifies this
      ensures list == ApplyMiscLine(old(list), line0)
    {
      if line0 == "" {
        return;
      }
      var line := line0;
      var isDelete := StartsWith(line, DELETE_PREFIX);
      if isDelete {
        line := line[|DELETE_PREFIX|..];
      }
      var l := list;
      var i := 0;
      while i < |l| && l[i] != line
        invariant 0 <= i <= |l|
        invariant line !in l[..i]
      {
        assert l[..i + 1] == l[..i] + [l[i]];
        i := i + 1;
      }
      if i == |l| {
        assert l[..i] == l;
        if !isDelete {
          list := l + [line];
        }
        return;
      }
      if !isDelete {
        return;
      }
      ghost var at := i;
      FirstPositionAt(l, line, at);
      var shifted := l;
      while i < |l| - 1
        invariant at <= i <= |l| - 1
        invariant |shifted| == |l|
        invariant shifted[..at] == l[..at]
        invariant forall j :: at <= j < i ==> shifted[j] == l[j + 1]
        invariant forall j :: i <= j < |l| ==> shifted[j] == l[j]
      {
        shifted := shifted[i := shifted[i + 1]];
        i := i + 1;
      }
      assert shifted[..|l| - 1] == l[..at] + l[at + 1..];
      list := shifted[..|l| - 1];
    }
  }

  // ---------------------------------------------------------------
  // Properties of the script semantics.
  // ---------------------------------------------------------------

  /** Every script keeps a duplicate-free list duplicate-free. */
  lemma {:induction false} ApplyMiscScriptNoDuplicates(list: seq<string>, lines: seq<string>)
    requires NoDuplicates(list)
    ensures NoDuplicates(ApplyMiscScript(list, lines))
    decreases |lines|
  {
    if lines != [] {
      var mid := ApplyMiscScript(list, lines[..|lines| - 1]);
      ApplyMiscScriptNoDuplicates(list, lines[..|lines| - 1]);
      var line := lines[|lines| - 1];
      if line != "" && StartsWith(line, DELETE_PREFIX) && line[|DELETE_PREFIX|..] in mid {
        RemoveFirstNoDuplicates(mid, line[|DELETE_PREFIX|..]);
      }
    }
  }

  /** After a non-empty add line the line is present; after "delete x" in a
      duplicate-free list `x` is absent; every other line is untouched. */
  lemma MiscLineEffect(list: seq<string>, line: string)
    requires NoDuplicates(list)
    ensures line != "" && !StartsWith(line, DELETE_PREFIX) ==>
      forall y :: y in ApplyMiscLine(list, line) <==> y in list || y == line
    ensures StartsWith(line, DELETE_PREFIX) ==>
      forall y :: y in ApplyMiscLine(list, line) <==> y in list && y != line[|DELETE_PREFIX|..]
  {
    if StartsWith(line, DELETE_PREFIX) && line[|DELETE_PREFIX|..] in list {
      RemoveFirstNoDuplicates(list, line[|DELETE_PREFIX|..]);
    }
  }

  /** Adding a line twice is the same as adding it once. */
  lemma MiscAddIdempotent(list: seq<string>, line: string)
    requires !StartsWith(line, DELETE_PREFIX)
    ensures ApplyMiscLine(ApplyMiscLine(list, line), line) == ApplyMiscLine(list, line)
  {
  }

  /** Deleting a line just added to a list that lacked it restores the list. */
  lemma {:induction false} MiscDeleteUndoesAdd(list: seq<string>, line: string)
    requires line != "" && !StartsWith(line, DELETE_PREFIX) && line !in list
    ensures ApplyMiscLine(ApplyMiscLine(list, line), DELETE_PREFIX + line) == list
  {
    var added := list + [line];
    var del := DELETE_PREFIX + line;
    assert StartsWith(del, DELETE_PREFIX) && del[|DELETE_PREFIX|..] == line;
    assert added[|list|] == line && line !in added[..|list|];
    FirstPositionAt(added, line, |list|);
    assert added[..|list|] + added[|list| + 1..] == list;
  }

  ghost predicate ScriptableLine(x: string)
  {
    x != "" && !StartsWith(x, DELETE_PREFIX)
  }

  /** A printed list, interpreted on an empty list, gives the same list back. */
  lemma {:induction false} MiscRoundTrip(list: seq<string>)
    requires NoDuplicates(list)
    requires forall k :: 0 <= k < |list| ==> ScriptableLine(list[k])
    ensures ApplyMiscScript([], list) == list
  {
    if list != [] {
      var init := list[..|list| - 1];
      var x := list[|list| - 1];
      assert NoDuplicates(init) by {
        forall i, j | 0 <= i < j < |init| ensures init[i] != init[j] {
          assert init[i] == list[i] && init[j] == list[j];
        }
      }
      MiscRoundTrip(init);
      assert x !in init by {
        forall i | 0 <= i < |init| ensures init[i] != x {
          assert init[i] == list[i];
        }
      }
      assert init + [x] == list;
    }
  }
}
