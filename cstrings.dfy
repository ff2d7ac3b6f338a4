/** The C string primitives the policy engine relies on (`strstr`, `strchr`,
    `strrchr`, `strcmp`, the prefix-consuming `str_starts`, and the numeric
    conversions of `sscanf`), stated over `seq<char>`. */
module CStrings {

  datatype Option<T> = None | Some(value: T)

  /** The C library's end-of-file / not-found return value. */
  const EOF: int := -1

  predicate StartsWith(s: string, p: string)
  {
    |p| <= |s| && s[..|p|] == p
  }

  /** `p` occurs in `s` at position `i`. */
  predicate OccursAt(s: string, p: string, i: int)
  {
    0 <= i && i + |p| <= |s| && s[i..i + |p|] == p
  }

  lemma OccursAtFirst(s: string, p: string, i: int)
    requires |p| > 0
    ensures OccursAt(s, p, i) ==> s[i] == p[0]
  {
    if OccursAt(s, p, i) {
      assert s[i] == s[i..i + |p|][0];
    }
  }

  /** `strstr(s + from, p)`: the first occurrence of `p` at or after `from`. */
  function FindFrom(s: string, p: string, from: nat): (r: Option<nat>)
    decreases |s| - from
    ensures r.Some? ==> from <= r.value && OccursAt(s, p, r.value)
    ensures r.Some? ==> forall j :: from <= j < r.value ==> !OccursAt(s, p, j)
    ensures r.None? ==> forall j :: from <= j ==> !OccursAt(s, p, j)
  {
    if from + |p| > |s| then None
    else if s[from..from + |p|] == p then Some(from)
    else FindFrom(s, p, from + 1)
  }

  /** The last occurrence of `p` in `s` strictly before position `end`. */
  function FindLastBelow(s: string, p: string, end: nat): (r: Option<nat>)
    ensures r.Some? ==> r.value < end && OccursAt(s, p, r.value)
    ensures r.Some? ==> forall j :: r.value < j < end ==> !OccursAt(s, p, j)
    ensures r.None? ==> forall j :: 0 <= j < end ==> !OccursAt(s, p, j)
  {
    if end == 0 then None
    else if OccursAt(s, p, end - 1) then Some(end - 1)
    else FindLastBelow(s, p, end - 1)
  }

  /** The last occurrence of `p` in `s`. */
  function FindLast(s: string, p: string): (r: Option<nat>)
    ensures r.Some? ==> OccursAt(s, p, r.value)
    ensures r.Some? ==> forall j :: r.value < j ==> !OccursAt(s, p, j)
    ensures r.None? ==> forall j :: !OccursAt(s, p, j)
  {
    FindLastBelow(s, p, |s| + 1)
  }

  /** `strchr(s, c)`: the first position of `c`. */
  function FirstIndexOf(s: string, c: char): (r: Option<nat>)
    ensures r.Some? ==> r.value < |s| && s[r.value] == c && c !in s[..r.value]
    ensures r.None? ==> c !in s
  {
    if s == [] then None
    else if s[0] == c then Some(0)
    else match FirstIndexOf(s[1..], c)
      case None => None
      case Some(k) =>
        assert s[1..][..k] == s[1..k + 1];
        Some(k + 1)
  }

  /** `strrchr(s, c)`: the last position of `c`. */
  function LastIndexOf(s: string, c: char): (r: Option<nat>)
    ensures r.Some? ==> r.value < |s| && s[r.value] == c && c !in s[r.value + 1..]
    ensures r.None? ==> c !in s
  {
    if s == [] then None
    else if s[|s| - 1] == c then Some(|s| - 1)
    else match LastIndexOf(s[..|s| - 1], c)
      case None => None
      case Some(k) => Some(k)
  }

  /** The text after the last space of `s`, or all of `s` when it has none
      (the `get_last_name` / `last_name` idiom). */
  function AfterLastSpace(s: string): string
  {
    match LastIndexOf(s, ' ')
    case None => s
    case Some(k) => s[k + 1..]
  }

  /** `strcmp(a, b) <= 0`: lexicographic order on character codes, a proper
      prefix sorting first. */
  predicate StrLe(a: string, b: string)
    decreases |a|
  {
    |a| == 0 || (|b| > 0 && (a[0] < b[0] || (a[0] == b[0] && StrLe(a[1..], b[1..]))))
  }

  lemma {:induction false} StrLeTotal(a: string, b: string)
    ensures StrLe(a, b) || StrLe(b, a)
    decreases |a|
  {
    if |a| > 0 && |b| > 0 && a[0] == b[0] {
      StrLeTotal(a[1..], b[1..]);
    }
  }

  lemma {:induction false} StrLeTransitive(a: string, b: string, c: string)
    requires StrLe(a, b) && StrLe(b, c)
    ensures StrLe(a, c)
    decreases |a|
  {
    if |a| > 0 && a[0] == b[0] && b[0] == c[0] {
      StrLeTransitive(a[1..], b[1..], c[1..]);
    }
  }

  lemma {:induction false} StrLeAntisymmetric(a: string, b: string)
    requires StrLe(a, b) && StrLe(b, a)
    ensures a == b
    decreases |a|
  {
    if |a| > 0 {
      StrLeAntisymmetric(a[1..], b[1..]);
      assert a == [a[0]] + a[1..];
      assert b == [b[0]] + b[1..];
    }
  }

  // ---------------------------------------------------------------
  // Numeric conversions of sscanf: "%u" (decimal) and "%X" (hex).
  // ---------------------------------------------------------------

  function DigitValue(c: char, hex: bool): Option<nat>
  {
    if '0' <= c <= '9' then Some(c as int - '0' as int)
    else if hex && 'a' <= c <= 'f' then Some(c as int - 'a' as int + 10)
    else if hex && 'A' <= c <= 'F' then Some(c as int - 'A' as int + 10)
    else None
  }

  function Radix(hex: bool): nat
  {
    if hex then 16 else 10
  }

  /** The number of leading digit characters of `s`. */
  function DigitRun(s: string, hex: bool): (n: nat)
    ensures n <= |s|
  {
    if s == [] || DigitValue(s[0], hex).None? then 0
    else 1 + DigitRun(s[1..], hex)
  }

  /** The value of a string of digits, most significant first. */
  function DigitsValue(ds: string, hex: bool): nat
  {
    if ds == [] then 0
    else
      var d := DigitValue(ds[|ds| - 1], hex);
      DigitsValue(ds[..|ds| - 1], hex) * Radix(hex) + (if d.Some? then d.value else 0)
  }

  /** One `%u` / `%X` conversion: the value of the leading digits and how many
      characters they took, or None when no digit leads. */
  function ScanNumber(s: string, hex: bool): (r: Option<(nat, nat)>)
    ensures r.Some? ==> 0 < r.value.1 <= |s|
  {
    var n := DigitRun(s, hex);
    if n == 0 then None else Some((DigitsValue(s[..n], hex), n))
  }

  /** The values `sscanf` assigns for a format made of conversions separated by
      the literal characters `seps`: conversion k+1 is attempted only when
      conversion k succeeded and is followed by `seps[k]`. The count `sscanf`
      returns is the length of the result. */
  function ScanList(s: string, seps: string, hex: bool): (r: seq<nat>)
    ensures |r| <= |seps| + 1
    decreases |seps|
  {
    match ScanNumber(s, hex)
    case None => []
    case Some((v, n)) =>
      if |seps| > 0 && n < |s| && s[n] == seps[0] then [v] + ScanList(s[n + 1..], seps[1..], hex)
      else [v]
  }

  /** The digit character for `d < Radix(hex)`, upper case as `%X` prints it. */
  function DigitChar(d: nat, hex: bool): (c: char)
    requires d < Radix(hex)
    ensures DigitValue(c, hex) == Some(d)
  {
    if d < 10 then ('0' as int + d) as char else ('A' as int + d - 10) as char
  }

  /** `printf("%u", n)` (hex false) or `printf("%X", n)` (hex true). */
  function Numeral(n: nat, hex: bool): (r: string)
    ensures |r| > 0
    decreases n
  {
    if n < Radix(hex) then [DigitChar(n, hex)]
    else Numeral(n / Radix(hex), hex) + [DigitChar(n % Radix(hex), hex)]
  }

  lemma {:induction false} NumeralScans(n: nat, hex: bool)
    ensures DigitRun(Numeral(n, hex), hex) == |Numeral(n, hex)|
    ensures DigitsValue(Numeral(n, hex), hex) == n
    decreases n
  {
    var s := Numeral(n, hex);
    if n >= Radix(hex) {
      NumeralScans(n / Radix(hex), hex);
      var h := Numeral(n / Radix(hex), hex);
      var c := DigitChar(n % Radix(hex), hex);
      assert s == h + [c];
      assert s[..|s| - 1] == h;
      DigitRunAppend(h, c, hex);
    }
  }

  lemma {:induction false} DigitRunAppend(s: string, c: char, hex: bool)
    requires DigitRun(s, hex) == |s|
    requires DigitValue(c, hex).Some?
    ensures DigitRun(s + [c], hex) == |s| + 1
    decreases |s|
  {
    if s == [] {
      assert DigitRun([c][1..], hex) == 0;
    } else {
      assert (s + [c])[1..] == s[1..] + [c];
      DigitRunAppend(s[1..], c, hex);
    }
  }

  /** A digit run ends where a non-digit follows. */
  lemma {:induction false} DigitRunStops(s: string, t: string, hex: bool)
    requires DigitRun(s, hex) == |s|
    requires t != [] && DigitValue(t[0], hex).None?
    ensures DigitRun(s + t, hex) == |s|
    decreases |s|
  {
    if s != [] {
      assert (s + t)[1..] == s[1..] + t;
      DigitRunStops(s[1..], t, hex);
    }
  }

  /** `printf` followed by `sscanf` of the same conversion gives the number back. */
  lemma ScanNumeral(n: nat, hex: bool)
    ensures ScanNumber(Numeral(n, hex), hex) == Some((n, |Numeral(n, hex)|))
  {
    NumeralScans(n, hex);
    var s := Numeral(n, hex);
    assert s[..|s|] == s;
  }

  /** The same when a non-digit follows the number. */
  lemma ScanNumeralFollowed(n: nat, t: string, hex: bool)
    requires t != [] && DigitValue(t[0], hex).None?
    ensures ScanNumber(Numeral(n, hex) + t, hex) == Some((n, |Numeral(n, hex)|))
  {
    NumeralScans(n, hex);
    var s := Numeral(n, hex);
    DigitRunStops(s, t, hex);
    assert (s + t)[..|s|] == s;
  }

  /** The numbers printed with the separators between them, as the format
      `"%u<seps[0]>%u<seps[1]>..."` prints them. */
  function JoinNumerals(values: seq<nat>, seps: string, hex: bool): string
    requires |values| == |seps| + 1
    decreases |seps|
  {
    if seps == [] then Numeral(values[0], hex)
    else Numeral(values[0], hex) + ([seps[0]] + JoinNumerals(values[1..], seps[1..], hex))
  }

  /** `sscanf` reads back all the numbers `printf` wrote with a format whose
      separators begin `seps`, when no separator is itself a digit; a format
      with more separators stops where the text ends. */
  lemma {:induction false} ScanJoinNumerals(values: seq<nat>, sp: string, seps: string, hex: bool)
    requires |values| == |sp| + 1
    requires |sp| <= |seps| && seps[..|sp|] == sp
    requires forall k :: 0 <= k < |seps| ==> DigitValue(seps[k], hex).None?
    ensures ScanList(JoinNumerals(values, sp, hex), seps, hex) == values
    decreases |sp|
  {
    if sp == [] {
      ScanNumeral(values[0], hex);
      assert values == [values[0]];
    } else {
      ScanJoinStep(values, sp, seps, hex);
      assert seps[1..][..|sp| - 1] == sp[1..];
      ScanJoinNumerals(values[1..], sp[1..], seps[1..], hex);
      assert values == [values[0]] + values[1..];
    }
  }

  /** The first number is read back, and the scan goes on after the
      separator that follows it. */
  lemma ScanJoinStep(values: seq<nat>, sp: string, seps: string, hex: bool)
    requires |values| == |sp| + 1 && sp != []
    requires |sp| <= |seps| && sp[0] == seps[0]
    requires DigitValue(seps[0], hex).None?
    ensures ScanList(JoinNumerals(values, sp, hex), seps, hex)
         == [values[0]] + ScanList(JoinNumerals(values[1..], sp[1..], hex), seps[1..], hex)
  {
    var rest := JoinNumerals(values[1..], sp[1..], hex);
    assert JoinNumerals(values, sp, hex) == Numeral(values[0], hex) + ([sp[0]] + rest);
    ScanAfterNumeral(values[0], sp[0], rest, seps, hex);
  }

  /** A number followed by the next separator is read, and the scan goes on
      after the separator. */
  lemma ScanAfterNumeral(v: nat, c: char, rest: string, seps: string, hex: bool)
    requires seps != [] && c == seps[0] && DigitValue(c, hex).None?
    ensures ScanList(Numeral(v, hex) + ([c] + rest), seps, hex) == [v] + ScanList(rest, seps[1..], hex)
  {
    var head := Numeral(v, hex);
    ScanNumeralFollowed(v, [c] + rest, hex);
    AfterSeparator(head, c, rest);
    ScanListCons(head + ([c] + rest), seps, hex, v, |head|);
  }

  lemma AfterSeparator(head: string, c: char, rest: string)
    ensures (head + ([c] + rest))[|head|] == c
    ensures (head + ([c] + rest))[|head| + 1..] == rest
  {
    var s := head + ([c] + rest);
    assert s[|head| + 1..] == rest;
  }

  lemma ScanListCons(s: string, seps: string, hex: bool, v: nat, n: nat)
    requires ScanNumber(s, hex) == Some((v, n))
    requires |seps| > 0 && n < |s| && s[n] == seps[0]
    ensures ScanList(s, seps, hex) == [v] + ScanList(s[n + 1..], seps[1..], hex)
  {
  }

  /** Every character `printf` writes for a number is a digit. */
  lemma {:induction false} NumeralDigits(n: nat, hex: bool)
    ensures forall k :: 0 <= k < |Numeral(n, hex)| ==> DigitValue(Numeral(n, hex)[k], hex).Some?
    decreases n
  {
    if n >= Radix(hex) {
      NumeralDigits(n / Radix(hex), hex);
    }
  }

  /** A character that is neither a digit nor a separator does not occur in
      the printed numbers. */
  lemma {:induction false} JoinNumeralsAvoids(values: seq<nat>, sp: string, hex: bool, c: char)
    requires |values| == |sp| + 1
    requires DigitValue(c, hex).None? && c !in sp
    ensures c !in JoinNumerals(values, sp, hex)
    decreases |sp|
  {
    NumeralDigits(values[0], hex);
    if sp != [] {
      JoinNumeralsAvoids(values[1..], sp[1..], hex, c);
    }
  }
}
