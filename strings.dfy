/**
 * The PHP string primitives the parser relies on, written out over `seq<char>`:
 * `trim`, `strpos`/`stripos`, `explode`, `str_replace`, `substr_count`,
 * `strtolower` and `empty()` on a string.
 */
module Strings {
  import opened Wrappers

  /** The characters PHP's `trim()` strips by default: " \t\n\r\0\x0B". */
  predicate IsTrimChar(c: char) {
    c == ' ' || c == '\t' || c == '\n' || c == '\r' || c == '\0' || c == '\U{0B}'
  }

  function TrimLeft(s: string): (r: string)
    ensures |r| <= |s| && r == s[|s| - |r|..]
    ensures r == [] || !IsTrimChar(r[0])
    decreases |s|
  {
    if |s| > 0 && IsTrimChar(s[0]) then TrimLeft(s[1..]) else s
  }

  function TrimRight(s: string): (r: string)
    ensures |r| <= |s| && r == s[..|r|]
    ensures r == [] || !IsTrimChar(r[|r| - 1])
    decreases |s|
  {
    if |s| > 0 && IsTrimChar(s[|s| - 1]) then TrimRight(s[..|s| - 1]) else s
  }

  /** PHP `trim($s)`: a contiguous piece of `s` with no trim character at either end. */
  function Trim(s: string): (r: string)
    ensures |r| <= |s|
    ensures r == [] || (!IsTrimChar(r[0]) && !IsTrimChar(r[|r| - 1]))
  {
    TrimRight(TrimLeft(s))
  }

  /** `pat` occurs in `s` starting at index `i`. */
  predicate OccursAt(s: string, pat: string, i: int) {
    0 <= i && i + |pat| <= |s| && s[i..i + |pat|] == pat
  }

  function IndexFrom(s: string, pat: string, from: nat): (r: Option<nat>)
    ensures r.Some? ==> from <= r.value && OccursAt(s, pat, r.value)
    ensures r.Some? ==> forall j :: from <= j < r.value ==> !OccursAt(s, pat, j)
    ensures r.None? ==> forall j :: from <= j ==> !OccursAt(s, pat, j)
    decreases |s| - from
  {
    if from + |pat| > |s| then None
    else if s[from..from + |pat|] == pat then Some(from)
    else IndexFrom(s, pat, from + 1)
  }

  /** PHP `strpos($s, $pat)`: the first position of `pat` in `s`, `None` for `false`. */
  function IndexOf(s: string, pat: string): (r: Option<nat>)
    ensures r.Some? ==> OccursAt(s, pat, r.value) && forall j :: 0 <= j < r.value ==> !OccursAt(s, pat, j)
    ensures r.None? <==> forall j :: !OccursAt(s, pat, j)
  {
    IndexFrom(s, pat, 0)
  }

  /** `strpos($s, $pat) !== false`. */
  predicate Contains(s: string, pat: string) {
    IndexOf(s, pat).Some?
  }

  /** An occurrence in `s` is still an occurrence once text is added on either side. */
  lemma ContainsExtended(s: string, pat: string, before: string, after: string)
    requires Contains(s, pat)
    ensures Contains(before + s + after, pat)
  {
    var i := IndexOf(s, pat).value;
    var t := before + s + after;
    assert t[|before| + i..|before| + i + |pat|] == s[i..i + |pat|];
    assert OccursAt(t, pat, |before| + i);
  }

  /** ASCII lower-casing of one character (PHP's `strtolower` in the C locale). */
  function LowerChar(c: char): char {
    if 'A' <= c <= 'Z' then (c as int + 32) as char else c
  }

  predicate IsLowerAscii(c: char) {
    'a' <= c <= 'z'
  }

  predicate IsUpperAscii(c: char) {
    'A' <= c <= 'Z'
  }

  /** PHP `strtolower($s)`. */
  function Lower(s: string): (r: string)
    ensures |r| == |s|
    ensures forall k :: 0 <= k < |s| ==> r[k] == LowerChar(s[k])
  {
    seq(|s|, k requires 0 <= k < |s| => LowerChar(s[k]))
  }

  /** The string has at least one character in a-z. */
  predicate HasLowerAscii(s: string) {
    exists k :: 0 <= k < |s| && IsLowerAscii(s[k])
  }

  /** PHP `stripos($s, $pat) !== false`, case-insensitive in ASCII. */
  predicate ContainsNoCase(s: string, pat: string) {
    Contains(Lower(s), Lower(pat))
  }

  /** PHP `empty()` applied to a string value: the empty string and "0" are empty. */
  predicate IsEmpty(s: string) {
    s == "" || s == "0"
  }

  /** PHP `substr_count($s, $c)` for a one-character needle. */
  function CountChar(s: string, c: char): (n: nat)
    ensures n <= |s|
    ensures n == 0 <==> forall k :: 0 <= k < |s| ==> s[k] != c
  {
    if |s| == 0 then 0 else CountChar(s[..|s| - 1], c) + (if s[|s| - 1] == c then 1 else 0)
  }

  /** PHP `str_replace($pat, $rep, $s)`: every occurrence, left to right, without overlap. */
  function ReplaceAll(s: string, pat: string, rep: string): (r: string)
    requires |pat| > 0
    ensures !Contains(s, pat) ==> r == s
    decreases |s|
  {
    match IndexOf(s, pat)
    case None => s
    case Some(i) => s[..i] + rep + ReplaceAll(s[i + |pat|..], pat, rep)
  }

  /** `strpos($s, $c)` for one character: the first position holding it. */
  lemma IndexOfChar(s: string, c: char)
    ensures IndexOf(s, [c]).Some? ==>
      IndexOf(s, [c]).value < |s| && s[IndexOf(s, [c]).value] == c &&
      forall j :: 0 <= j < IndexOf(s, [c]).value ==> s[j] != c
    ensures IndexOf(s, [c]).None? <==> forall j :: 0 <= j < |s| ==> s[j] != c
  {
    forall j | 0 <= j < |s| ensures OccursAt(s, [c], j) <==> s[j] == c {
      assert s[j..j + 1] == [s[j]];
    }
  }

  /** Deleting a character: everything before its first occurrence, then the rest with it deleted. */
  lemma ReplaceCharAt(s: string, c: char, i: nat)
    requires IndexOf(s, [c]) == Some(i)
    ensures ReplaceAll(s, [c], "") == s[..i] + ReplaceAll(s[i + 1..], [c], "")
  {
    assert s[..i] + "" == s[..i];
  }

  /** A character added at the end does not move the first occurrence of `c` that is already there. */
  lemma IndexOfCharSnoc(s: string, x: char, c: char)
    ensures IndexOf(s, [c]).Some? ==> IndexOf(s + [x], [c]) == IndexOf(s, [c])
    ensures IndexOf(s, [c]).None? ==> IndexOf(s + [x], [c]) == if x == c then Some(|s|) else None
  {
    var t := s + [x];
    IndexOfChar(s, c);
    IndexOfChar(t, c);
    if IndexOf(s, [c]).Some? {
      var i := IndexOf(s, [c]).value;
      assert t[i] == c;
    } else if x == c {
      assert t[|s|] == c;
    } else {
      assert forall j :: 0 <= j < |t| ==> t[j] == if j < |s| then s[j] else x;
    }
  }

  /** Deleting one character from a string with one more character at the end. */
  lemma {:induction false} ReplaceCharSnoc(s: string, x: char, c: char)
    ensures ReplaceAll(s + [x], [c], "") == ReplaceAll(s, [c], "") + (if x == c then [] else [x])
    decreases |s|
  {
    var t := s + [x];
    IndexOfCharSnoc(s, x, c);
    if IndexOf(s, [c]).Some? {
      var i := IndexOf(s, [c]).value;
      ReplaceCharAt(s, c, i);
      ReplaceCharAt(t, c, i);
      assert t[..i] == s[..i];
      assert t[i + 1..] == s[i + 1..] + [x];
      ReplaceCharSnoc(s[i + 1..], x, c);
    } else if x == c {
      ReplaceCharAt(t, c, |s|);
      assert t[..|s|] == s;
      assert t[|s| + 1..] == [];
      IndexOfChar([], c);
    }
  }

  /** Without leading trim characters, a string ending in a kept character still ends in it. */
  lemma {:induction false} TrimLeftKeepsLast(s: string)
    requires |s| > 0 && !IsTrimChar(s[|s| - 1])
    ensures |TrimLeft(s)| > 0 && TrimLeft(s)[|TrimLeft(s)| - 1] == s[|s| - 1]
    decreases |s|
  {
    if IsTrimChar(s[0]) {
      TrimLeftKeepsLast(s[1..]);
    }
  }

  /** Trimming a string that ends in a character `trim()` keeps leaves that character last. */
  lemma TrimKeepsLast(s: string)
    requires |s| > 0 && !IsTrimChar(s[|s| - 1])
    ensures |Trim(s)| > 0 && Trim(s)[|Trim(s)| - 1] == s[|s| - 1]
  {
    TrimLeftKeepsLast(s);
    var r := TrimLeft(s);
    assert TrimRight(r) == r;
  }

  /** PHP `explode($d, $s)` for a non-empty delimiter. */
  function Split(s: string, d: string): (r: seq<string>)
    requires |d| > 0
    ensures |r| >= 1
    ensures forall k :: 0 <= k < |r| ==> !Contains(r[k], d)
    decreases |s|
  {
    match IndexOf(s, d)
    case None => [s]
    case Some(i) =>
      NoEarlierOccurrence(s, d, i);
      [s[..i]] + Split(s[i + |d|..], d)
  }

  /** The text before the first occurrence of `d` does not contain `d`. */
  lemma NoEarlierOccurrence(s: string, d: string, i: nat)
    requires |d| > 0 && IndexOf(s, d) == Some(i)
    ensures !Contains(s[..i], d)
  {
    var head := s[..i];
    forall j | OccursAt(head, d, j) ensures false {
      assert head[j..j + |d|] == s[j..j + |d|];
      assert OccursAt(s, d, j);
    }
  }

  /** PHP `implode($d, $ps)`. */
  function Join(ps: seq<string>, d: string): string {
    if |ps| == 0 then ""
    else if |ps| == 1 then ps[0]
    else ps[0] + d + Join(ps[1..], d)
  }

  /** Splitting and joining on the same delimiter gives the text back. */
  lemma {:induction false} SplitJoin(s: string, d: string)
    requires |d| > 0
    ensures Join(Split(s, d), d) == s
    decreases |s|
  {
    if IndexOf(s, d).None? {
      assert Split(s, d) == [s];
    } else {
      var i := IndexOf(s, d).value;
      var rest := s[i + |d|..];
      var tail := Split(rest, d);
      assert Split(s, d) == [s[..i]] + tail;
      SplitJoin(rest, d);
      assert s[i..i + |d|] == d;
      assert s == s[..i] + d + rest;
    }
  }
}
