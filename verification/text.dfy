/** The parts of java.lang.String and java.util.regex that the indexer relies on,
    with their Java semantics written out. A `string` is a sequence of Unicode scalar values, not of
    UTF-16 code units: a character outside the Basic Multilingual Plane is one element here. */
module Text {
  import Basics

  /** Line terminators as `.` and `$` of java.util.regex see them when no flag is set. */
  predicate IsLineTerminator(c: char) {
    c == '\n' || c == '\r' || c == '\U{0085}' || c == '\U{2028}' || c == '\U{2029}'
  }

  predicate NoLineTerminator(s: string) {
    forall i | 0 <= i < |s| :: !IsLineTerminator(s[i])
  }

  /** The `\s` class of java.util.regex: space, tab, newline, vertical tab, form feed, carriage return. */
  predicate IsRegexSpace(c: char) {
    c == ' ' || c == '\t' || c == '\n' || c == '\U{000B}' || c == '\U{000C}' || c == '\r'
  }

  predicate StartsWith(s: string, prefix: string) {
    prefix <= s
  }

  predicate EndsWith(s: string, suffix: string) {
    |suffix| <= |s| && s[|s| - |suffix|..] == suffix
  }

  /** `pat` occurs in `s` starting at index `i`. */
  predicate OccursAt(s: string, pat: string, i: int) {
    0 <= i && i + |pat| <= |s| && s[i..i + |pat|] == pat
  }

  lemma OccursShift(s: string, pat: string)
    requires s != []
    ensures forall i | 0 <= i :: OccursAt(s[1..], pat, i) <==> OccursAt(s, pat, i + 1)
  {
    forall i | 0 <= i
      ensures OccursAt(s[1..], pat, i) <==> OccursAt(s, pat, i + 1)
    {
      if 0 <= i && i + |pat| <= |s[1..]| {
        assert s[1..][i..i + |pat|] == s[i + 1..i + 1 + |pat|];
      }
    }
  }

  /** `s.contains(pat)`, computed as Java's `indexOf` does: a left-to-right scan. */
  function Contains(s: string, pat: string): (r: bool)
    ensures r <==> exists i :: OccursAt(s, pat, i)
    decreases |s|
  {
    if pat <= s then
      assert OccursAt(s, pat, 0);
      true
    else if s == [] then
      false
    else
      OccursShift(s, pat);
      assert !OccursAt(s, pat, 0);
      assert forall i :: OccursAt(s, pat, i) ==> OccursAt(s[1..], pat, i - 1);
      Contains(s[1..], pat)
  }

  /** The start index `indexOf(pat, from)` scans from: `from` clamped into `0..|s|`. */
  function ScanStart(s: string, from: int): (k: nat)
    ensures k <= |s|
  {
    if from < 0 then 0 else if from > |s| then |s| else from
  }

  /** `s.indexOf(pat, from)`: the least index at or after `ScanStart(s, from)` where
      `pat` occurs, or -1. For an empty `pat` and `from > |s|` this is `|s|`. */
  function IndexOf(s: string, pat: string, from: int): (r: int)
    ensures r == -1 || (ScanStart(s, from) <= r && OccursAt(s, pat, r))
    ensures forall k | ScanStart(s, from) <= k && (r == -1 || k < r) :: !OccursAt(s, pat, k)
  {
    ScanFrom(s, pat, ScanStart(s, from))
  }

  function ScanFrom(s: string, pat: string, k: nat): (r: int)
    requires k <= |s|
    ensures r == -1 || (k <= r && OccursAt(s, pat, r))
    ensures forall j | k <= j && (r == -1 || j < r) :: !OccursAt(s, pat, j)
    decreases |s| - k
  {
    if OccursAt(s, pat, k) then k
    else if k == |s| then -1
    else ScanFrom(s, pat, k + 1)
  }

  /** Where `$` of java.util.regex matches when no flag is set: at the end of the input,
      before a line terminator that ends the input (but not between `\r` and `\n`), and
      before a final `\r\n`. */
  predicate DollarAt(s: string, i: int) {
    i == |s|
    || (i == |s| - 1 && i >= 0 && IsLineTerminator(s[i]) && !(s[i] == '\n' && i > 0 && s[i - 1] == '\r'))
    || (i == |s| - 2 && i >= 0 && s[i] == '\r' && s[i + 1] == '\n')
  }

  /** `s.replace(pat, "")`: every occurrence of `pat`, found left to right without
      overlap, is deleted. Java leaves the string alone when `pat` is empty. */
  function RemoveAll(s: string, pat: string): (r: string)
    ensures |r| <= |s|
    decreases |s|
  {
    if pat == [] then s
    else if s == [] then []
    else if pat <= s then RemoveAll(s[|pat|..], pat)
    else [s[0]] + RemoveAll(s[1..], pat)
  }

  /** Index of the first line terminator of `s`, or `|s|` when there is none. */
  function LineEnd(s: string): (n: nat)
    ensures n <= |s|
    ensures forall i | 0 <= i < n :: !IsLineTerminator(s[i])
    ensures n < |s| ==> IsLineTerminator(s[n])
    decreases |s|
  {
    if s == [] || IsLineTerminator(s[0]) then 0 else 1 + LineEnd(s[1..])
  }

  /** `s.replaceAll(c + ".*", "")` for a character `c` that is not a line terminator:
      every match runs from an occurrence of `c` up to, not including, the next line terminator. */
  function CutFrom(s: string, c: char): (r: string)
    requires !IsLineTerminator(c)
    ensures c !in r
    ensures forall x :: x in r ==> x in s
    ensures c !in s ==> r == s
    ensures NoLineTerminator(s) ==> r <= s && (|r| < |s| ==> s[|r|] == c)
    decreases |s|
  {
    if s == [] then []
    else if s[0] == c then
      var n := LineEnd(s);
      assert n > 0;
      var r := CutFrom(s[n..], c);
      assert NoLineTerminator(s) ==> n == |s| && r == [];
      r
    else
      [s[0]] + CutFrom(s[1..], c)
  }

  /** Java's `String.toLowerCase`, taken character by character through the given map. */
  function LowerCase(s: string, lower: char -> char): (r: string)
    ensures |r| == |s|
    ensures forall i | 0 <= i < |s| :: r[i] == lower(s[i])
  {
    seq(|s|, i requires 0 <= i < |s| => lower(s[i]))
  }

  /** Java's character case mappings, which the model takes as given. */
  datatype CaseMap = CaseMap(lower: char -> char, upper: char -> char)

  /** `a.equalsIgnoreCase(b)`: same length, and every pair of characters is equal,
      equal after upper-casing, or equal after upper- then lower-casing. */
  predicate EqualsIgnoreCase(a: string, b: string, cm: CaseMap) {
    |a| == |b| &&
    forall i | 0 <= i < |a| ::
      a[i] == b[i] || cm.upper(a[i]) == cm.upper(b[i])
      || cm.lower(cm.upper(a[i])) == cm.lower(cm.upper(b[i]))
  }

  /** `s.trim().isEmpty()`: `trim` removes every leading and trailing character up to U+0020. */
  predicate IsBlank(s: string) {
    forall i | 0 <= i < |s| :: s[i] <= ' '
  }

  /** Java's string conversion of a possibly-null string in a concatenation. */
  function ToJava(s: Basics.Option<string>): string {
    match s
    case Some(v) => v
    case None => "null"
  }
}
