/**
 * String primitives with the meaning JavaScript gives them: `indexOf`,
 * `lastIndexOf`, `startsWith`, `endsWith`, `split`, `join`, the regex class
 * `\s`, and ASCII-only `toLowerCase`. Strings are `seq<char>`, one Unicode
 * scalar value per element; JavaScript indexes UTF-16 code units, so lengths
 * and offsets agree with it only on text without characters outside the
 * Basic Multilingual Plane.
 */
module Strings {

  /** `t` occurs in `s` starting at offset `i`. */
  predicate OccursAt(s: string, t: string, i: nat) {
    i + |t| <= |s| && s[i..i + |t|] == t
  }

  predicate StartsWith(s: string, prefix: string) {
    |prefix| <= |s| && s[..|prefix|] == prefix
  }

  predicate EndsWith(s: string, suffix: string) {
    |suffix| <= |s| && s[|s| - |suffix|..] == suffix
  }

  /** `s.includes(t)`. */
  predicate Contains(s: string, t: string) {
    exists i: nat :: i <= |s| && OccursAt(s, t, i)
  }

  /** `s.indexOf(t, from)`: the first occurrence at or after `from`, or -1. */
  function IndexFrom(s: string, t: string, from: nat): (r: int)
    requires from <= |s|
    ensures r == -1 || (from <= r <= |s| && OccursAt(s, t, r))
    ensures r == -1 ==> forall j: nat :: from <= j <= |s| ==> !OccursAt(s, t, j)
    ensures r >= 0 ==> forall j: nat :: from <= j < r ==> !OccursAt(s, t, j)
    decreases |s| - from
  {
    if OccursAt(s, t, from) then from
    else if from == |s| then -1
    else IndexFrom(s, t, from + 1)
  }

  /** `s.indexOf(t)`. */
  function IndexOf(s: string, t: string): (r: int)
    ensures r == -1 <==> !Contains(s, t)
    ensures r >= 0 ==> r <= |s| && OccursAt(s, t, r)
    ensures r >= 0 ==> forall j: nat :: j < r ==> !OccursAt(s, t, j)
  {
    IndexFrom(s, t, 0)
  }

  /** A needle found at `off`, whose first character appears nowhere before, is found there first. */
  lemma FirstOccurrence(s: string, t: string, off: nat)
    requires OccursAt(s, t, off) && |t| > 0
    requires forall j :: 0 <= j < off ==> s[j] != t[0]
    ensures IndexOf(s, t) == off
  {
    forall j: nat | j < off
      ensures !OccursAt(s, t, j)
    {
      assert s[j] != t[0];
    }
  }

  /** `s.lastIndexOf(c)` for a one-character needle. */
  function LastIndexOf(s: string, c: char): (r: int)
    ensures -1 <= r < |s|
    ensures r >= 0 ==> s[r] == c
    ensures forall j :: r < j < |s| ==> s[j] != c
  {
    if |s| == 0 then -1
    else if s[|s| - 1] == c then |s| - 1
    else LastIndexOf(s[..|s| - 1], c)
  }

  /**
   * `s.split(c)` for a one-character separator: the maximal separator-free
   * pieces, in order. Peeled from the end, so the last piece is the text after
   * the last separator.
   */
  function Split(s: string, c: char): (parts: seq<string>)
    ensures |parts| >= 1
    ensures forall k :: 0 <= k < |parts| ==> c !in parts[k]
    decreases |s|
  {
    var j := LastIndexOf(s, c);
    if j < 0 then
      assert forall k :: 0 <= k < |s| ==> s[k] != c;
      [s]
    else
      var tail := s[j + 1..];
      assert forall k :: 0 <= k < |tail| ==> tail[k] == s[j + 1 + k];
      Split(s[..j], c) + [tail]
  }

  /** `parts.join(c)`. */
  function Join(parts: seq<string>, c: char): string
  {
    if |parts| == 0 then ""
    else if |parts| == 1 then parts[0]
    else Join(parts[..|parts| - 1], c) + [c] + parts[|parts| - 1]
  }

  /** The text after the last separator, `s.split(c).pop()`; the whole text when there is none. */
  function LastSegment(s: string, c: char): (r: string)
    ensures c !in r
    ensures EndsWith(s, r)
    ensures |r| < |s| ==> s[|s| - |r| - 1] == c
  {
    var parts := Split(s, c);
    parts[|parts| - 1]
  }

  /**
   * The regex class `\s` of JavaScript: the ASCII blanks and line breaks,
   * U+00A0, U+1680, U+2000..U+200A, U+2028, U+2029, U+202F, U+205F, U+3000
   * and U+FEFF.
   */
  predicate IsWhitespace(c: char) {
    var n := c as int;
    n == 0x09 || n == 0x0A || n == 0x0B || n == 0x0C || n == 0x0D || n == 0x20
    || n == 0xA0 || n == 0x1680 || (0x2000 <= n <= 0x200A)
    || n == 0x2028 || n == 0x2029 || n == 0x202F || n == 0x205F
    || n == 0x3000 || n == 0xFEFF
  }

  predicate AllWhitespace(s: string) {
    forall k :: 0 <= k < |s| ==> IsWhitespace(s[k])
  }

  /** The end of the blank run starting at `p`. */
  function SkipBlanks(t: string, p: nat): (r: nat)
    requires p <= |t|
    ensures p <= r <= |t|
    ensures forall k :: p <= k < r ==> IsWhitespace(t[k])
    ensures r < |t| ==> !IsWhitespace(t[r])
    decreases |t| - p
  {
    if p < |t| && IsWhitespace(t[p]) then SkipBlanks(t, p + 1) else p
  }

  /** A blank run that stops at a non-blank is exactly what `SkipBlanks` skips. */
  lemma SkipBlanksExact(t: string, p: nat, q: nat)
    requires p <= q < |t|
    requires forall k :: p <= k < q ==> IsWhitespace(t[k])
    requires !IsWhitespace(t[q])
    ensures SkipBlanks(t, p) == q
  {
  }

  /** ASCII `toLowerCase` on one code unit; other characters are kept. */
  function LowerChar(c: char): char {
    if 'A' <= c <= 'Z' then (c as int + 32) as char else c
  }

  function Lower(s: string): (r: string)
    ensures |r| == |s|
    ensures forall k :: 0 <= k < |s| ==> r[k] == LowerChar(s[k])
  {
    seq(|s|, k requires 0 <= k < |s| => LowerChar(s[k]))
  }

  /** The decimal form of a natural number, as JavaScript prints array indices. */
  function NatToString(n: nat): (r: string)
    ensures |r| >= 1
    ensures forall k :: 0 <= k < |r| ==> '0' <= r[k] <= '9'
    ensures r[0] == '0' ==> n == 0
  {
    if n < 10 then [('0' as int + n) as char]
    else NatToString(n / 10) + [('0' as int + n % 10) as char]
  }

  /** The last separator of `a + [c] + b` is the one between them when `b` holds none. */
  lemma {:induction false} LastIndexOfAfter(a: string, c: char, b: string)
    requires c !in b
    ensures LastIndexOf(a + [c] + b, c) == |a|
    decreases |b|
  {
    var s := a + [c] + b;
    if |b| > 0 {
      assert s[..|s| - 1] == a + [c] + b[..|b| - 1];
      assert s[|s| - 1] == b[|b| - 1];
      LastIndexOfAfter(a, c, b[..|b| - 1]);
    }
  }

  /** Splitting a join gives back the parts when none of them holds the separator. */
  lemma {:induction false} SplitJoin(parts: seq<string>, c: char)
    requires |parts| >= 1
    requires forall k :: 0 <= k < |parts| ==> c !in parts[k]
    ensures Split(Join(parts, c), c) == parts
    decreases |parts|
  {
    if |parts| > 1 {
      var init := parts[..|parts| - 1];
      var last := parts[|parts| - 1];
      var a := Join(init, c);
      var s := a + [c] + last;
      LastIndexOfAfter(a, c, last);
      assert s[..|a|] == a;
      assert s[|a| + 1..] == last;
      SplitJoin(init, c);
      assert init + [last] == parts;
    }
  }
}
